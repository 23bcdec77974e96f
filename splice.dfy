/**
 * `replaceChild`'s pointer surgery on the node table, as written and with
 * the replacement's parent link set, and what each does to a linked tree.
 */
module Splice {
  import opened Dom

  /**
   * The table after the found-target branch of `replaceChild(parent, t, r)`:
   * the assignments in source order, each reading the table as it stands.
   */
  function Spliced(g: seq<Links>, t: nat, r: nat): (g': seq<Links>)
    requires t < |g| && r < |g|
    requires PtrIn(g[t].parent, |g|) && PtrIn(g[t].prevSibling, |g|) && PtrIn(g[t].nextSibling, |g|)
    ensures |g'| == |g|
  {
    NextRelinked(PrevRelinked(ParentRelinked(g, t, r), t, r), t, r)
  }

  /** `p.FirstChild = r` and `p.LastChild = r` where they held `t`, for `t`'s parent `p`. */
  function ParentRelinked(g: seq<Links>, t: nat, r: nat): (g': seq<Links>)
    requires t < |g| && PtrIn(g[t].parent, |g|)
    ensures |g'| == |g| && g'[t].prevSibling == g[t].prevSibling && g'[t].nextSibling == g[t].nextSibling
    ensures g[t].parent.Nil? ==> g' == g
    ensures g[t].parent.Ref? ==> var p := g[t].parent.id;
      g'[p] == g[p].(firstChild := if g[p].firstChild == Ref(t) then Ref(r) else g[p].firstChild,
                     lastChild := if g[p].lastChild == Ref(t) then Ref(r) else g[p].lastChild) &&
      forall i :: 0 <= i < |g| && i != p ==> g'[i] == g[i]
  {
    var p := g[t].parent;
    if p.Nil? then g else
    var ga := if g[p.id].firstChild == Ref(t) then g[p.id := g[p.id].(firstChild := Ref(r))] else g;
    if ga[p.id].lastChild == Ref(t) then ga[p.id := ga[p.id].(lastChild := Ref(r))] else ga
  }

  /** `prev.NextSibling = r` and `r.PrevSibling = t.PrevSibling`. */
  function PrevRelinked(g: seq<Links>, t: nat, r: nat): (g': seq<Links>)
    requires t < |g| && r < |g| && PtrIn(g[t].prevSibling, |g|)
    ensures |g'| == |g|
    ensures var prev := g[t].prevSibling;
      prev != Ref(r) && prev != Ref(t) && t != r ==>
      g'[r] == g[r].(prevSibling := prev) && g'[t] == g[t] &&
      (prev.Ref? ==> g'[prev.id] == g[prev.id].(nextSibling := Ref(r))) &&
      forall i :: 0 <= i < |g| && i != r && Ref(i) != prev ==> g'[i] == g[i]
  {
    var prev := g[t].prevSibling;
    var g2 := if prev.Ref? then g[prev.id := g[prev.id].(nextSibling := Ref(r))] else g;
    g2[r := g2[r].(prevSibling := g2[t].prevSibling)]
  }

  /** `next.PrevSibling = r` and `r.NextSibling = t.NextSibling`. */
  function NextRelinked(g: seq<Links>, t: nat, r: nat): (g': seq<Links>)
    requires t < |g| && r < |g| && PtrIn(g[t].nextSibling, |g|)
    ensures |g'| == |g|
    ensures var next := g[t].nextSibling;
      next != Ref(r) && next != Ref(t) && t != r ==>
      g'[r] == g[r].(nextSibling := next) &&
      (next.Ref? ==> g'[next.id] == g[next.id].(prevSibling := Ref(r))) &&
      forall i :: 0 <= i < |g| && i != r && Ref(i) != next ==> g'[i] == g[i]
  {
    var next := g[t].nextSibling;
    var g4 := if next.Ref? then g[next.id := g[next.id].(prevSibling := Ref(r))] else g;
    g4[r := g4[r].(nextSibling := g4[t].nextSibling)]
  }

  /** The corrected splice: as written, then `replace.Parent = parent`. */
  function SplicedLinked(g: seq<Links>, p: nat, t: nat, r: nat): (g': seq<Links>)
    requires p < |g| && t < |g| && r < |g|
    requires PtrIn(g[t].parent, |g|) && PtrIn(g[t].prevSibling, |g|) && PtrIn(g[t].nextSibling, |g|)
    ensures |g'| == |g| && g'[r].parent == Ref(p)
    ensures forall i :: 0 <= i < |g| && i != r ==> g'[i].parent == g[i].parent
    ensures var prev, next := g[t].prevSibling, g[t].nextSibling;
      t != r && prev != Ref(r) && prev != Ref(t) && next != Ref(r) && next != Ref(t) ==>
      g'[r].prevSibling == prev && g'[r].nextSibling == next
  {
    SplicedParents(g, t, r);
    var s := Spliced(g, t, r);
    s[r := s[r].(parent := Ref(p))]
  }

  /**
   * Record by record, replacing child `k` of `p` by `r` in `g` gives `g'`,
   * with `r`'s parent link set to `rparent`.
   */
  ghost predicate SpliceStep(g: seq<Links>, g': seq<Links>, p: nat, ks: seq<Shape>, k: nat, r: nat, rparent: Ptr)
    requires p < |g| && r < |g| && k < |ks|
  {
    var prev, next := PrevPtr(ks, k), NextPtr(ks, k);
    Outside(g, g', {p, r} + PtrIds(prev) + PtrIds(next)) &&
    g'[p] == g[p].(firstChild := if k == 0 then Ref(r) else g[p].firstChild,
                   lastChild := if k == |ks| - 1 then Ref(r) else g[p].lastChild) &&
    g'[r] == g[r].(parent := rparent, prevSibling := prev, nextSibling := next) &&
    (prev.Ref? ==> prev.id < |g| && g'[prev.id] == g[prev.id].(nextSibling := Ref(r))) &&
    (next.Ref? ==> next.id < |g| && g'[next.id] == g[next.id].(prevSibling := Ref(r)))
  }

  lemma SiblingFacts(g: seq<Links>, p: nat, ks: seq<Shape>, ids: set<nat>, k: nat)
    requires Linked(Shape(p, ks, ids), g) && k < |ks|
    ensures ks[k].id in ids && ks[k].id != p && ks[k].id < |g|
    ensures k > 0 ==> ks[k - 1].id in ids && ks[k - 1].id != p && ks[k - 1].id != ks[k].id
    ensures k < |ks| - 1 ==> ks[k + 1].id in ids && ks[k + 1].id != p && ks[k + 1].id != ks[k].id
    ensures 0 < k < |ks| - 1 ==> ks[k - 1].id != ks[k + 1].id
  {
    assert ks[k].id in ks[k].ids && ks[k].ids <= ids;
    if k > 0 {
      assert ks[k - 1].id in ks[k - 1].ids && ks[k - 1].ids <= ids && ks[k - 1].ids !! ks[k].ids;
    }
    if k < |ks| - 1 {
      assert ks[k + 1].id in ks[k + 1].ids && ks[k + 1].ids <= ids && ks[k].ids !! ks[k + 1].ids;
    }
    if 0 < k < |ks| - 1 {
      assert ks[k - 1].ids !! ks[k + 1].ids;
    }
  }

  /** The as-written splice, record by record, when `t`, its parent, siblings and `r` are distinct. */
  lemma SplicedRecords(g: seq<Links>, t: nat, r: nat, p: nat, prev: Ptr, next: Ptr, first: bool, last: bool)
    requires t < |g| && r < |g| && p < |g| && PtrIn(prev, |g|) && PtrIn(next, |g|)
    requires g[t].parent == Ref(p) && g[t].prevSibling == prev && g[t].nextSibling == next
    requires (g[p].firstChild == Ref(t)) == first && (g[p].lastChild == Ref(t)) == last
    requires p != t && r != t && r != p
    requires prev != Ref(t) && prev != Ref(p) && prev != Ref(r)
    requires next != Ref(t) && next != Ref(p) && next != Ref(r)
    requires prev.Ref? ==> prev != next
    ensures var g' := Spliced(g, t, r);
      g'[p] == g[p].(firstChild := if first then Ref(r) else g[p].firstChild,
                     lastChild := if last then Ref(r) else g[p].lastChild) &&
      g'[r] == g[r].(prevSibling := prev, nextSibling := next) &&
      (prev.Ref? ==> g'[prev.id] == g[prev.id].(nextSibling := Ref(r))) &&
      (next.Ref? ==> g'[next.id] == g[next.id].(prevSibling := Ref(r))) &&
      Outside(g, g', {p, r} + PtrIds(prev) + PtrIds(next))
  {
    var g1 := ParentRelinked(g, t, r);
    var g3 := PrevRelinked(g1, t, r);
    var g5 := NextRelinked(g3, t, r);
    assert g3[t] == g1[t];
  }

  /** The as-written splice is a splice step that leaves the replacement's parent link alone. */
  lemma SplicedStep(g: seq<Links>, p: nat, ks: seq<Shape>, ids: set<nat>, k: nat, r: nat)
    requires Closed(g) && Linked(Shape(p, ks, ids), g) && k < |ks| && r < |g| && r !in ids
    ensures SpliceStep(g, Spliced(g, ks[k].id, r), p, ks, k, r, g[r].parent)
  {
    SiblingFacts(g, p, ks, ids, k);
    var t := ks[k].id;
    assert (g[p].firstChild == Ref(t)) == (k == 0) by {
      if k != 0 { assert ks[0].ids !! ks[k].ids && ks[0].id in ks[0].ids; }
    }
    assert (g[p].lastChild == Ref(t)) == (k == |ks| - 1) by {
      if k != |ks| - 1 { assert ks[|ks| - 1].ids !! ks[k].ids && ks[|ks| - 1].id in ks[|ks| - 1].ids; }
    }
    SplicedRecords(g, t, r, p, PrevPtr(ks, k), NextPtr(ks, k), k == 0, k == |ks| - 1);
  }

  /** Setting the replacement's parent link after a splice step is a splice step with that parent. */
  lemma StepReparent(g: seq<Links>, g': seq<Links>, p: nat, ks: seq<Shape>, k: nat, r: nat, rparent: Ptr, v: Ptr)
    requires p < |g| && r < |g| && k < |ks| && SpliceStep(g, g', p, ks, k, r, rparent)
    requires r != p && Ref(r) != PrevPtr(ks, k) && Ref(r) != NextPtr(ks, k)
    ensures SpliceStep(g, g'[r := g'[r].(parent := v)], p, ks, k, r, v)
  {
  }

  /** The corrected splice is a splice step that makes `p` the replacement's parent. */
  lemma SplicedLinkedStep(g: seq<Links>, p: nat, ks: seq<Shape>, ids: set<nat>, k: nat, r: nat)
    requires Closed(g) && Linked(Shape(p, ks, ids), g) && k < |ks| && r < |g| && r !in ids
    ensures SpliceStep(g, SplicedLinked(g, p, ks[k].id, r), p, ks, k, r, Ref(p))
  {
    SplicedStep(g, p, ks, ids, k, r);
    SiblingFacts(g, p, ks, ids, k);
    StepReparent(g, Spliced(g, ks[k].id, r), p, ks, k, r, g[r].parent, Ref(p));
  }

  lemma WfReplace(p: nat, ks: seq<Shape>, ids: set<nat>, k: nat, rsh: Shape)
    requires Wf(Shape(p, ks, ids)) && Wf(rsh) && ids !! rsh.ids && k < |ks|
    ensures Wf(Shape(p, ks[k := rsh], ids + rsh.ids))
  {
    var ks' := ks[k := rsh];
    forall i, j | 0 <= i < j < |ks'| ensures ks'[i].ids !! ks'[j].ids {
      if i == k { assert ks[j].ids <= ids; }
      if j == k { assert ks[i].ids <= ids; }
    }
  }

  /** The record of a sibling of the target after a splice, and what the splice leaves alone below it. */
  lemma SpliceKidRecord(g: seq<Links>, g': seq<Links>, p: nat, ks: seq<Shape>, ids: set<nat>, k: nat,
                        rsh: Shape, rparent: Ptr, j: nat)
    requires Wf(Shape(p, ks, ids)) && InTable(Shape(p, ks, ids), g) && Wf(rsh) && ids !! rsh.ids
    requires k < |ks| && j < |ks| && j != k && p < |g| && rsh.id < |g|
    requires SpliceStep(g, g', p, ks, k, rsh.id, rparent)
    ensures (ks[j].ids - {ks[j].id}) !! ({p, rsh.id} + PtrIds(PrevPtr(ks, k)) + PtrIds(NextPtr(ks, k)))
    ensures g'[ks[j].id] == if j + 1 == k then g[ks[j].id].(nextSibling := Ref(rsh.id))
                            else if j == k + 1 then g[ks[j].id].(prevSibling := Ref(rsh.id))
                            else g[ks[j].id]
  {
    var q, r := ks[j].id, rsh.id;
    assert r in rsh.ids;
    KidApart(p, ks, ids, j, k, rsh.ids);
    var T := {p, r} + PtrIds(PrevPtr(ks, k)) + PtrIds(NextPtr(ks, k));
    if k > 0 {
      KidApart(p, ks, ids, j, k - 1, rsh.ids);
    }
    if k < |ks| - 1 {
      KidApart(p, ks, ids, j, k + 1, rsh.ids);
    }
    if j + 1 == k {
      assert PrevPtr(ks, k) == Ref(q);
    } else if j == k + 1 {
      assert NextPtr(ks, k) == Ref(q);
    } else {
      assert q !in T;
    }
  }

  /** A sibling of the target keeps its subtree and parent, and its links now name the replacement. */
  lemma SpliceKeepsKid(g: seq<Links>, g': seq<Links>, p: nat, ks: seq<Shape>, ids: set<nat>, k: nat,
                       rsh: Shape, rparent: Ptr, j: nat)
    requires Linked(Shape(p, ks, ids), g) && Wf(rsh) && InTable(rsh, g) && ids !! rsh.ids && k < |ks|
    requires SpliceStep(g, g', p, ks, k, rsh.id, rparent) && j < |ks| && j != k
    ensures InTable(ks[j], g') && Linked(ks[j], g')
    ensures g'[ks[j].id].parent == Ref(p)
    ensures g'[ks[j].id].prevSibling == PrevPtr(ks[k := rsh], j)
    ensures g'[ks[j].id].nextSibling == NextPtr(ks[k := rsh], j)
  {
    assert rsh.id in rsh.ids;
    SpliceKidRecord(g, g', p, ks, ids, k, rsh, rparent, j);
    Untouched(ks[j], g, g', {p, rsh.id} + PtrIds(PrevPtr(ks, k)) + PtrIds(NextPtr(ks, k)));
    var ks' := ks[k := rsh];
    if j > 0 && j - 1 != k {
      assert ks'[j - 1] == ks[j - 1];
    }
    if j < |ks| - 1 && j + 1 != k {
      assert ks'[j + 1] == ks[j + 1];
    }
  }

  /** The replacement keeps its own subtree and takes over the target's place among the siblings. */
  lemma SpliceKeepsNew(g: seq<Links>, g': seq<Links>, p: nat, ks: seq<Shape>, ids: set<nat>, k: nat,
                       rsh: Shape, rparent: Ptr)
    requires Wf(Shape(p, ks, ids)) && InTable(Shape(p, ks, ids), g) && Linked(rsh, g) && ids !! rsh.ids
    requires k < |ks| && p < |g| && SpliceStep(g, g', p, ks, k, rsh.id, rparent)
    ensures Linked(rsh, g') && g'[rsh.id].parent == rparent
    ensures g'[rsh.id].prevSibling == PrevPtr(ks[k := rsh], k)
    ensures g'[rsh.id].nextSibling == NextPtr(ks[k := rsh], k)
  {
    var T := {p, rsh.id} + PtrIds(PrevPtr(ks, k)) + PtrIds(NextPtr(ks, k));
    KidApart(p, ks, ids, k, k, rsh.ids);
    if k > 0 {
      KidApart(p, ks, ids, k - 1, k, rsh.ids);
    }
    if k < |ks| - 1 {
      KidApart(p, ks, ids, k + 1, k, rsh.ids);
    }
    assert p in ids;
    assert (rsh.ids - {rsh.id}) !! T;
    Untouched(rsh, g, g', T);
    var ks' := ks[k := rsh];
    if k > 0 {
      assert ks'[k - 1] == ks[k - 1];
    }
    if k < |ks| - 1 {
      assert ks'[k + 1] == ks[k + 1];
    }
  }

  /** The parent's first and last links name the replacement exactly where they named the target. */
  lemma SpliceParentRecord(g: seq<Links>, g': seq<Links>, p: nat, ks: seq<Shape>, k: nat, rsh: Shape, rparent: Ptr)
    requires p < |g| && rsh.id < |g| && k < |ks| && SpliceStep(g, g', p, ks, k, rsh.id, rparent)
    requires g[p].firstChild == FirstPtr(ks) && g[p].lastChild == LastPtr(ks)
    ensures g'[p].firstChild == FirstPtr(ks[k := rsh]) && g'[p].lastChild == LastPtr(ks[k := rsh])
  {
    var ks' := ks[k := rsh];
    if k != 0 {
      assert ks'[0] == ks[0];
    }
    if k != |ks| - 1 {
      assert ks'[|ks| - 1] == ks[|ks| - 1];
    }
  }

  /** When the splice makes `p` the replacement's parent, every child of the new list is hung in order. */
  lemma SpliceKidsLinked(g: seq<Links>, g': seq<Links>, p: nat, ks: seq<Shape>, ids: set<nat>, k: nat,
                         rsh: Shape, ks': seq<Shape>)
    requires Linked(Shape(p, ks, ids), g) && Linked(rsh, g) && ids !! rsh.ids && k < |ks| && ks' == ks[k := rsh]
    requires SpliceStep(g, g', p, ks, k, rsh.id, Ref(p))
    ensures forall j :: 0 <= j < |ks'| ==>
      g'[ks'[j].id].parent == Ref(p) && g'[ks'[j].id].prevSibling == PrevPtr(ks', j) &&
      g'[ks'[j].id].nextSibling == NextPtr(ks', j) && Linked(ks'[j], g')
  {
    forall j | 0 <= j < |ks'|
      ensures g'[ks'[j].id].parent == Ref(p) && g'[ks'[j].id].prevSibling == PrevPtr(ks', j) &&
              g'[ks'[j].id].nextSibling == NextPtr(ks', j) && Linked(ks'[j], g')
    {
      if j == k {
        SpliceKeepsNew(g, g', p, ks, ids, k, rsh, Ref(p));
      } else {
        SpliceKeepsKid(g, g', p, ks, ids, k, rsh, Ref(p), j);
      }
    }
  }

  /**
   * A splice step keeps the parent's tree exactly linked, with the
   * replacement in the target's place, if and only if it makes the parent
   * the replacement's parent.
   */
  lemma SpliceLinked(g: seq<Links>, g': seq<Links>, p: nat, ks: seq<Shape>, ids: set<nat>, k: nat,
                     rsh: Shape, rparent: Ptr)
    requires Linked(Shape(p, ks, ids), g) && Linked(rsh, g) && ids !! rsh.ids && k < |ks|
    requires SpliceStep(g, g', p, ks, k, rsh.id, rparent)
    ensures Linked(Shape(p, ks[k := rsh], ids + rsh.ids), g') <==> rparent == Ref(p)
  {
    WfReplace(p, ks, ids, k, rsh);
    var ks' := ks[k := rsh];
    assert InTable(Shape(p, ks', ids + rsh.ids), g');
    SpliceParentRecord(g, g', p, ks, k, rsh, rparent);
    if rparent == Ref(p) {
      SpliceKidsLinked(g, g', p, ks, ids, k, rsh, ks');
      LinkedIntro(p, ks', ids + rsh.ids, g');
    } else {
      assert ks'[k].id == rsh.id;
    }
  }

  /**
   * As written, `replaceChild` keeps a linked tree linked only when the
   * replacement already named the parent; a fresh node (parent nil) leaves
   * the parent's tree with a child whose parent link is wrong.
   */
  lemma SplicedBreaks(g: seq<Links>, p: nat, ks: seq<Shape>, ids: set<nat>, k: nat, rsh: Shape)
    requires Closed(g) && Linked(Shape(p, ks, ids), g) && Linked(rsh, g) && ids !! rsh.ids && k < |ks|
    ensures Linked(Shape(p, ks[k := rsh], ids + rsh.ids), Spliced(g, ks[k].id, rsh.id)) <==> g[rsh.id].parent == Ref(p)
  {
    assert rsh.id in rsh.ids;
    SplicedStep(g, p, ks, ids, k, rsh.id);
    SpliceLinked(g, Spliced(g, ks[k].id, rsh.id), p, ks, ids, k, rsh, g[rsh.id].parent);
  }

  /** As written, `replaceChild` writes no parent link: every node keeps the parent it had, the replacement included. */
  lemma SplicedParents(g: seq<Links>, t: nat, r: nat)
    requires t < |g| && r < |g|
    requires PtrIn(g[t].parent, |g|) && PtrIn(g[t].prevSibling, |g|) && PtrIn(g[t].nextSibling, |g|)
    ensures forall i :: 0 <= i < |g| ==> Spliced(g, t, r)[i].parent == g[i].parent
  {
    var g1 := ParentRelinked(g, t, r);
    var g2 := PrevRelinked(g1, t, r);
    assert forall i :: 0 <= i < |g| ==> g1[i].parent == g[i].parent;
    assert forall i :: 0 <= i < |g| ==> g2[i].parent == g1[i].parent;
    assert forall i :: 0 <= i < |g| ==> NextRelinked(g2, t, r)[i].parent == g2[i].parent;
  }

  /** With `replace.Parent = parent` added, the splice keeps the parent's tree linked, the replacement in the target's place. */
  lemma SplicedLinkedKeeps(g: seq<Links>, p: nat, ks: seq<Shape>, ids: set<nat>, k: nat, rsh: Shape)
    requires Closed(g) && Linked(Shape(p, ks, ids), g) && Linked(rsh, g) && ids !! rsh.ids && k < |ks|
    ensures Linked(Shape(p, ks[k := rsh], ids + rsh.ids), SplicedLinked(g, p, ks[k].id, rsh.id))
  {
    assert rsh.id in rsh.ids;
    SplicedLinkedStep(g, p, ks, ids, k, rsh.id);
    SpliceLinked(g, SplicedLinked(g, p, ks[k].id, rsh.id), p, ks, ids, k, rsh, Ref(p));
  }
}
