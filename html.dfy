/**
 * html.go: `replaceEmojis`, which rewrites one text node into a `<span>` of
 * text runs and image copies, `replaceChild`, which splices a node into a
 * parent's child list, and `replaceTextNodes`, which walks a tree doing both.
 */
module Html {
  import opened Results
  import opened Dom
  import opened Matching
  import opened Splice

  /** The node `replaceEmojis` makes for one child of the span. */
  function PieceTree(p: Piece): Tree
  {
    match p
    case Run(t) => Tree(TextNode, t, [], [])
    case Img(m) => Tree(m.node.kind, m.node.data, m.node.attrs, [])
  }

  const SpanContent := Content(ElementNode, "span", [])

  /** The `<span>` with the given children. */
  function SpanTree(ps: seq<Piece>): Tree
  {
    Tree(ElementNode, "span", [], seq(|ps|, i requires 0 <= i < |ps| => PieceTree(ps[i])))
  }

  lemma SpanPush(ps: seq<Piece>, p: Piece)
    ensures SpanTree(ps + [p]) == SpanTree(ps).(kids := SpanTree(ps).kids + [PieceTree(p)])
  {
    assert SpanTree(ps + [p]).kids == SpanTree(ps).kids + [PieceTree(p)];
  }

  /** The table after a fresh node is allocated. */
  lemma ClosedGrow(g: seq<Links>)
    requires Closed(g)
    ensures Closed(g + [Detached])
  {
    var g1 := g + [Detached];
    forall i | 0 <= i < |g1| ensures LinksIn(g1[i], |g1|) {
      if i < |g| { assert g1[i] == g[i]; }
    }
  }

  /**
   * Allocating a detached node at the end of the table and appending it to
   * `n` adds it as `n`'s last child and touches nothing outside `n`'s footprint.
   */
  lemma EmitLinks(g: seq<Links>, n: nat, ks: seq<Shape>, ids: set<nat>)
    requires Closed(g) && Linked(Shape(n, ks, ids), g)
    ensures Closed(g + [Detached]) && n < |g|
    ensures var c := |g|;
      var g' := Appended(g + [Detached], n, c);
      Linked(Shape(n, ks + [Shape(c, [], {c})], ids + {c}), g') &&
      g'[n].parent == g[n].parent && g'[n].prevSibling == g[n].prevSibling && g'[n].nextSibling == g[n].nextSibling &&
      Outside(g, g', ids)
  {
    var c, g1 := |g|, g + [Detached];
    var sh, leaf := Shape(n, ks, ids), Shape(c, [], {c});
    assert n in ids;
    ClosedGrow(g);
    Untouched(sh, g, g1, {});
    assert Linked(leaf, g1);
    assert ids !! leaf.ids;
    if ks != [] {
      KidApart(n, ks, ids, |ks| - 1, |ks| - 1, {c});
    }
    AppendedStep(g1, n, c);
    var g' := Appended(g1, n, c);
    AppendLinked(g1, g', n, ks, ids, leaf);
    assert Outside(g, g', ids) by {
      forall i | 0 <= i < |g| && i !in ids ensures g'[i] == g[i] {
        assert g1[i] == g[i];
      }
    }
  }

  /** The content `x` of the new last child shows up as the last subtree. */
  lemma EmitAbs(cs: seq<Content>, n: nat, ks: seq<Shape>, ids: set<nat>, x: Content)
    requires Wf(Shape(n, ks, ids)) && InTable(Shape(n, ks, ids), cs)
    ensures var c := |cs|;
      var sh' := Shape(n, ks + [Shape(c, [], {c})], ids + {c});
      InTable(sh', cs + [x]) &&
      Abs(sh', cs + [x]) == Abs(Shape(n, ks, ids), cs).(kids := Abs(Shape(n, ks, ids), cs).kids + [Tree(x.kind, x.data, x.attrs, [])])
  {
    var c := |cs|;
    var sh, leaf := Shape(n, ks, ids), Shape(c, [], {c});
    assert ids !! leaf.ids;
    AbsGrow(sh, cs, cs + [x]);
    AppendAbs(cs + [x], n, ks, ids, leaf);
  }

  /**
   * `g`, `cs` hold a detached `<span>` at position `span`, allocated just
   * past the table `g0`, whose children are made from `ps`; nothing of `g0`
   * has changed.
   */
  ghost predicate SpanBuilt(g: seq<Links>, cs: seq<Content>, g0: seq<Links>, span: nat,
                            ks: seq<Shape>, ids: set<nat>, ps: seq<Piece>)
  {
    |cs| == |g| && Closed(g) && Outside(g0, g, {}) && span == |g0| &&
    Linked(Shape(span, ks, ids), g) && InTable(Shape(span, ks, ids), cs) &&
    (forall i :: i in ids ==> span <= i) &&
    g[span].parent == Nil && g[span].prevSibling == Nil && g[span].nextSibling == Nil &&
    Abs(Shape(span, ks, ids), cs) == SpanTree(ps)
  }

  /**
   * The `emit` closure of `replaceEmojis` together with the allocation of
   * the node it is given: a fresh node with content `x` becomes the span's
   * last child.
   */
  method Emit(doc: Doc, span: nat, x: Content, ghost g0: seq<Links>, ghost ks: seq<Shape>, ghost ids: set<nat>,
              ghost ps: seq<Piece>, ghost p: Piece)
    returns (ghost ks': seq<Shape>, ghost ids': set<nat>)
    requires doc.Valid() && SpanBuilt(doc.links, doc.contents, g0, span, ks, ids, ps)
    requires PieceTree(p) == Tree(x.kind, x.data, x.attrs, [])
    modifies doc
    ensures doc.Valid() && SpanBuilt(doc.links, doc.contents, g0, span, ks', ids', ps + [p])
    ensures old(doc.contents) <= doc.contents
  {
    ghost var g, cs := doc.links, doc.contents;
    var t := doc.NewNode(x);
    doc.AppendChild(span, t);
    EmitLinks(g, span, ks, ids);
    EmitAbs(cs, span, ks, ids, x);
    SpanPush(ps, p);
    ks', ids' := ks + [Shape(t, [], {t})], ids + {t};
  }

  /**
   * The body of the matching branch of `replaceEmojis`, for entry `m` at
   * `idx`: the text since `consumed`, if any, then a copy of `m`'s template.
   */
  method EmitMatch(doc: Doc, span: nat, search: string, consumed: nat, idx: nat, m: EmojiMatch,
                   ghost g0: seq<Links>, ghost ks: seq<Shape>, ghost ids: set<nat>, ghost ps: seq<Piece>)
    returns (ghost ks': seq<Shape>, ghost ids': set<nat>)
    requires doc.Valid() && SpanBuilt(doc.links, doc.contents, g0, span, ks, ids, ps) && consumed <= idx <= |search|
    modifies doc
    ensures doc.Valid() && old(doc.contents) <= doc.contents
    ensures SpanBuilt(doc.links, doc.contents, g0, span, ks', ids',
      ps + (if idx > 0 && consumed < idx then [Run(search[consumed..idx])] else []) + [Img(m)])
  {
    ghost var ps' := ps;
    ks', ids' := ks, ids;
    if idx > 0 && consumed < idx {
      ks', ids' := Emit(doc, span, Content(TextNode, search[consumed..idx], []), g0, ks', ids', ps', Run(search[consumed..idx]));
      ps' := ps' + [Run(search[consumed..idx])];
    } else {
      assert ps + [] == ps;
    }
    ks', ids' := Emit(doc, span, m.node, g0, ks', ids', ps', Img(m));
  }

  /**
   * The state of the scan before position `idx`: the matches `found` so far
   * are the scan's first ones, the last ended at `skip`, and the span holds
   * the children emitted for them.
   */
  ghost predicate ScanState(g: seq<Links>, cs: seq<Content>, g0: seq<Links>, span: nat, ks: seq<Shape>, ids: set<nat>,
                            ix: Index, s: string, found: seq<Hit>, idx: nat, skip: nat)
  {
    idx <= |s| && Chain(s, found) && skip == Consumed(found) &&
    SpanBuilt(g, cs, g0, span, ks, ids, Emitted(s, found)) &&
    Hits(ix, s, 0, 0) == found + Hits(ix, s, idx, skip)
  }

  /** At an eligible position the scan takes the first fitting entry of the bucket. */
  lemma HitStep(ix: Index, s: string, idx: nat, found: seq<Hit>, b: nat)
    requires idx < |s| && Chain(s, found) && !Blocked(s, idx, Consumed(found)) && s[idx] in ix
    requires b < |ix[s[idx]]| && ix[s[idx]][b].str <= s[idx..]
    requires forall k :: 0 <= k < b ==> !(ix[s[idx]][k].str <= s[idx..])
    ensures var h, c := Hit(idx, ix[s[idx]][b]), Consumed(found);
      c <= idx && End(h) <= |s| && Chain(s, found + [h]) && Consumed(found + [h]) == End(h) &&
      Hits(ix, s, idx, c) == [h] + Hits(ix, s, idx + 1, End(h)) &&
      (idx > 0 && c < idx ==> Emitted(s, found + [h]) == Emitted(s, found) + [Run(s[c..idx])] + [Img(h.m)]) &&
      (!(idx > 0 && c < idx) ==> Emitted(s, found + [h]) == Emitted(s, found) + [Img(h.m)])
  {
    var h := Hit(idx, ix[s[idx]][b]);
    assert FirstPrefix(ix[s[idx]], s[idx..]) == Some(b);
    ChainSnoc(s, found, h);
    InitOfSnoc(found, h);
  }

  /** After the children for a match are emitted, the scan goes on past it. */
  lemma HitState(g: seq<Links>, cs: seq<Content>, g0: seq<Links>, span: nat, ks: seq<Shape>, ids: set<nat>,
                 ix: Index, s: string, found: seq<Hit>, idx: nat, b: nat, ps: seq<Piece>)
    requires idx < |s| && Chain(s, found) && !Blocked(s, idx, Consumed(found)) && s[idx] in ix
    requires b < |ix[s[idx]]| && ix[s[idx]][b].str <= s[idx..]
    requires forall k :: 0 <= k < b ==> !(ix[s[idx]][k].str <= s[idx..])
    requires Hits(ix, s, 0, 0) == found + Hits(ix, s, idx, Consumed(found))
    requires SpanBuilt(g, cs, g0, span, ks, ids, ps)
    requires var c := Consumed(found);
      ps == Emitted(s, found) + (if idx > 0 && c < idx then [Run(s[c..idx])] else []) + [Img(ix[s[idx]][b])]
    ensures var h := Hit(idx, ix[s[idx]][b]);
      ScanState(g, cs, g0, span, ks, ids, ix, s, found + [h], idx + 1, End(h))
  {
    var h, c := Hit(idx, ix[s[idx]][b]), Consumed(found);
    HitStep(ix, s, idx, found, b);
    if !(idx > 0 && c < idx) {
      assert Emitted(s, found) + [] == Emitted(s, found);
    }
    ConcatAssoc(found, [h], Hits(ix, s, idx + 1, End(h)));
  }

  /** A passed-over position, or one where no entry fits, adds no match. */
  lemma MissState(g: seq<Links>, cs: seq<Content>, g0: seq<Links>, span: nat, ks: seq<Shape>, ids: set<nat>,
                  ix: Index, s: string, found: seq<Hit>, idx: nat, skip: nat)
    requires idx < |s| && ScanState(g, cs, g0, span, ks, ids, ix, s, found, idx, skip)
    requires Blocked(s, idx, skip) || s[idx] !in ix ||
      forall k :: 0 <= k < |ix[s[idx]]| ==> !(ix[s[idx]][k].str <= s[idx..])
    ensures ScanState(g, cs, g0, span, ks, ids, ix, s, found, idx + 1, skip)
  {
    if !Blocked(s, idx, skip) && s[idx] in ix {
      assert FirstPrefix(ix[s[idx]], s[idx..]).None?;
    }
  }

  /** At the end of the text the matches found are all there are; they make up `Scan`'s pieces. */
  lemma ScanDone(ix: Index, s: string, found: seq<Hit>, skip: nat)
    requires Chain(s, found) && Hits(ix, s, 0, 0) == found + Hits(ix, s, |s|, skip)
    ensures Consumed(found) <= |s| && (Scan(ix, s).None? <==> found == [])
    ensures found != [] && Consumed(found) < |s| ==> Scan(ix, s).value == Emitted(s, found) + [Run(s[Consumed(found)..])]
    ensures found != [] && Consumed(found) == |s| ==> Scan(ix, s).value == Emitted(s, found)
  {
    ConsumedBound(s, found);
    assert found + [] == found;
    if found != [] && Consumed(found) == |s| {
      assert Emitted(s, found) + [] == Emitted(s, found);
    }
  }

  /**
   * The inner loop over a bucket: the position of its first entry, in
   * catalog order, that starts `rest`, or the bucket's length when none does.
   */
  method FirstFit(bucket: seq<EmojiMatch>, rest: string) returns (b: nat)
    ensures b <= |bucket| && (b < |bucket| ==> bucket[b].str <= rest)
    ensures forall k :: 0 <= k < b ==> !(bucket[k].str <= rest)
    ensures FirstPrefix(bucket, rest) == (if b < |bucket| then Some(b) else None)
  {
    b := 0;
    while b < |bucket| && !(bucket[b].str <= rest)
      invariant b <= |bucket| && forall k :: 0 <= k < b ==> !(bucket[k].str <= rest)
    {
      b := b + 1;
    }
  }

  /**
   * One turn of the scanning loop of `tw.replaceEmojis`, at position `idx`:
   * a code point that is ASCII, inside the last match, or without a bucket is
   * passed over; otherwise the first fitting entry of its bucket, if any, is
   * emitted after the text run before it and the scan resumes after it.
   */
  method ScanAt(doc: Doc, ix: Index, span: nat, search: string, idx: nat, consumed: nat, skip: nat, hit: bool,
                ghost g0: seq<Links>, ghost ks: seq<Shape>, ghost ids: set<nat>, ghost found: seq<Hit>)
    returns (consumed': nat, skip': nat, hit': bool, ghost ks': seq<Shape>, ghost ids': set<nat>, ghost found': seq<Hit>)
    requires doc.Valid() && idx < |search| && consumed == skip && hit == (found != [])
    requires ScanState(doc.links, doc.contents, g0, span, ks, ids, ix, search, found, idx, skip)
    modifies doc
    ensures doc.Valid() && old(doc.contents) <= doc.contents && consumed' == skip' && hit' == (found' != [])
    ensures ScanState(doc.links, doc.contents, g0, span, ks', ids', ix, search, found', idx + 1, skip')
  {
    consumed', skip', hit', ks', ids', found' := consumed, skip, hit, ks, ids, found;
    var ch := search[idx];
    if ch as int <= 127 || (skip != 0 && skip > idx) {
      MissState(doc.links, doc.contents, g0, span, ks, ids, ix, search, found, idx, skip);
      return;
    }
    if ch !in ix {
      MissState(doc.links, doc.contents, g0, span, ks, ids, ix, search, found, idx, skip);
      return;
    }
    var bucket := ix[ch];
    var b := FirstFit(bucket, search[idx..]);
    if b == |bucket| {
      MissState(doc.links, doc.contents, g0, span, ks, ids, ix, search, found, idx, skip);
      return;
    }
    var m := bucket[b];
    hit' := true;
    ks', ids' := EmitMatch(doc, span, search, consumed, idx, m, g0, ks, ids, Emitted(search, found));
    ghost var ps := Emitted(search, found) + (if idx > 0 && consumed < idx then [Run(search[consumed..idx])] else []) + [Img(m)];
    skip' := idx + |m.str|;
    consumed' := skip';
    HitState(doc.links, doc.contents, g0, span, ks', ids', ix, search, found, idx, b, ps);
    found' := found + [Hit(idx, m)];
  }

  /**
   * `tw.replaceEmojis(node)`: scans the text of `node` and returns a fresh,
   * detached `<span>` holding the pieces of `Scan`, or `Nil` when nothing
   * matched. The span is allocated first, so a table position is used even
   * when the result is `Nil`. `ix` is the receiver's `tw.nodes`.
   */
  method ReplaceEmojis(doc: Doc, ix: Index, node: nat) returns (res: Ptr, ghost sh: Shape)
    requires doc.Valid() && node < |doc.contents|
    modifies doc
    ensures doc.Valid() && old(doc.contents) <= doc.contents && Outside(old(doc.links), doc.links, {})
    ensures res.Nil? <==> Scan(ix, old(doc.contents)[node].data).None?
    ensures res.Ref? ==>
      res.id == sh.id == |old(doc.links)| && Linked(sh, doc.links) && InTable(sh, doc.contents) &&
      Abs(sh, doc.contents) == SpanTree(Scan(ix, old(doc.contents)[node].data).value) &&
      (forall i :: i in sh.ids ==> |old(doc.links)| <= i) &&
      doc.links[sh.id].parent == Nil && doc.links[sh.id].prevSibling == Nil && doc.links[sh.id].nextSibling == Nil
  {
    var search := doc.contents[node].data;
    ghost var cs0, g0 := doc.contents, doc.links;
    var span := doc.NewNode(SpanContent);
    var consumed: nat, skip: nat, hit := 0, 0, false;
    ghost var found: seq<Hit> := [];
    ghost var ks: seq<Shape> := [];
    ghost var ids: set<nat> := {span};
    assert ScanState(doc.links, doc.contents, g0, span, ks, ids, ix, search, found, 0, skip) by {
      assert Abs(Shape(span, ks, ids), doc.contents) == SpanTree([]);
      assert Hits(ix, search, 0, 0) == found + Hits(ix, search, 0, skip);
    }
    for idx: nat := 0 to |search|
      invariant doc.Valid() && cs0 <= doc.contents && consumed == skip && hit == (found != [])
      invariant ScanState(doc.links, doc.contents, g0, span, ks, ids, ix, search, found, idx, skip)
    {
      consumed, skip, hit, ks, ids, found := ScanAt(doc, ix, span, search, idx, consumed, skip, hit, g0, ks, ids, found);
    }
    ScanDone(ix, search, found, skip);
    if !hit {
      return Nil, Shape(span, ks, ids);
    }
    if consumed < |search| {
      ks, ids := Emit(doc, span, Content(TextNode, search[consumed..], []), g0, ks, ids, Emitted(search, found), Run(search[consumed..]));
      consumed := 0;
    }
    res, sh := Ref(span), Shape(span, ks, ids);
  }
}
