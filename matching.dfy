/**
 * What `replaceEmojis` computes, as functions over the code points of one
 * text: the matches it takes (`Hits`), in the order it takes them, and the
 * children it gives the `<span>` (`Pieces`). The imperative scanner in
 * module `Html` is proved to build exactly these.
 */
module Matching {
  import opened Results
  import opened Dom

  /** A catalog entry: the emoji's text, its asset file name and its `<img>` template node. */
  datatype EmojiMatch = EmojiMatch(str: string, img: string, node: Content)

  /** `tw.nodes`: catalog entries bucketed by their first code point. */
  type Index = map<char, seq<EmojiMatch>>

  /** A match taken at code-point position `at`. */
  datatype Hit = Hit(at: nat, m: EmojiMatch)

  /** A child of the `<span>`: a run of unmatched text, or a copy of an entry's template. */
  datatype Piece = Run(text: string) | Img(m: EmojiMatch)

  /** The position just after a match. */
  function End(h: Hit): nat
  {
    h.at + |h.m.str|
  }

  /**
   * The first entry of `bucket`, in bucket order, whose text is a prefix of
   * `rest`.
   */
  function FirstPrefix(bucket: seq<EmojiMatch>, rest: string): (r: Maybe<nat>)
    ensures r.Some? ==> r.value < |bucket| && bucket[r.value].str <= rest
    ensures r.Some? ==> forall b :: 0 <= b < r.value ==> !(bucket[b].str <= rest)
    ensures r.None? ==> forall b :: 0 <= b < |bucket| ==> !(bucket[b].str <= rest)
  {
    if bucket == [] then None
    else if bucket[0].str <= rest then Some(0)
    else match FirstPrefix(bucket[1..], rest)
      case None => None
      case Some(b) => Some(b + 1)
  }

  /** Position `i` is passed over: an ASCII code point, or inside the span of the last match. */
  predicate Blocked(s: string, i: nat, skip: nat): (b: bool)
    requires i < |s|
    ensures b <==> s[i] as int <= 127 || i < skip
  {
    s[i] as int <= 127 || (skip != 0 && skip > i)
  }

  /** Some entry could start at `i`: a non-ASCII code point whose bucket holds a prefix of the rest. */
  predicate Eligible(ix: Index, s: string, i: nat)
    requires i < |s|
  {
    s[i] as int > 127 && s[i] in ix && FirstPrefix(ix[s[i]], s[i..]).Some?
  }

  /** A position is eligible exactly when its code point is not ASCII, has a bucket, and some entry of it starts the rest of the text. */
  lemma EligibleMeaning(ix: Index, s: string, i: nat)
    requires i < |s|
    ensures Eligible(ix, s, i) <==>
      s[i] as int > 127 && s[i] in ix && exists k :: 0 <= k < |ix[s[i]]| && ix[s[i]][k].str <= s[i..]
  {
    if s[i] as int > 127 && s[i] in ix && FirstPrefix(ix[s[i]], s[i..]).Some? {
      var k := FirstPrefix(ix[s[i]], s[i..]).value;
      assert ix[s[i]][k].str <= s[i..];
    }
  }

  /** The entry taken at an eligible position. */
  function Chosen(ix: Index, s: string, i: nat): EmojiMatch
    requires i < |s| && Eligible(ix, s, i)
  {
    ix[s[i]][FirstPrefix(ix[s[i]], s[i..]).value]
  }

  /** The matches the scan takes from position `i` on, when the last match ended at `skip`. */
  function Hits(ix: Index, s: string, i: nat, skip: nat): (r: seq<Hit>)
    requires i <= |s|
    ensures |r| <= |s| - i
    decreases |s| - i
  {
    if i == |s| then []
    else if !Blocked(s, i, skip) && Eligible(ix, s, i) then
      var m := Chosen(ix, s, i);
      [Hit(i, m)] + Hits(ix, s, i + 1, i + |m.str|)
    else Hits(ix, s, i + 1, skip)
  }

  /** The text consumed by a sequence of matches: up to the end of the last one. */
  function Consumed(hits: seq<Hit>): nat
  {
    if hits == [] then 0 else End(hits[|hits| - 1])
  }

  /** Each match is a piece of `s`, and it starts no earlier than the previous one ended. */
  ghost predicate Chain(s: string, hits: seq<Hit>)
    decreases |hits|
  {
    hits == [] ||
    (var init, h := hits[..|hits| - 1], hits[|hits| - 1];
     Chain(s, init) && Consumed(init) <= h.at && End(h) <= |s| && s[h.at..End(h)] == h.m.str)
  }

  /** The children emitted for one match `h` when the text before `c` is already covered. */
  function Lead(s: string, h: Hit, c: nat): seq<Piece>
    requires c <= h.at <= |s|
  {
    (if h.at > 0 && c < h.at then [Run(s[c..h.at])] else []) + [Img(h.m)]
  }

  /** The children emitted during the scan, in order. */
  function Emitted(s: string, hits: seq<Hit>): (r: seq<Piece>)
    requires Chain(s, hits)
    ensures |hits| <= |r| <= 2 * |hits|
    decreases |hits|
  {
    if hits == [] then []
    else
      var init := hits[..|hits| - 1];
      Emitted(s, init) + Lead(s, hits[|hits| - 1], Consumed(init))
  }

  /** The "leftovers" child after the last match. */
  function Leftover(s: string, c: nat): seq<Piece>
    requires c <= |s|
  {
    if c < |s| then [Run(s[c..])] else []
  }

  /** All children of the `<span>`. */
  function Pieces(s: string, hits: seq<Hit>): (r: seq<Piece>)
    requires Chain(s, hits)
    ensures Flatten(r) == s
  {
    var c := Consumed(hits);
    EmittedText(s, hits);
    FlattenAppend(Emitted(s, hits), Leftover(s, c));
    assert Flatten(Leftover(s, c)) == s[c..] by {
      if c < |s| {
        assert Leftover(s, c)[..0] == [];
      }
    }
    TakeDrop(s, c);
    Emitted(s, hits) + Leftover(s, c)
  }

  /** `replaceEmojis` on text `s`: no span when nothing matched, else the span's children. */
  function Scan(ix: Index, s: string): (r: Maybe<seq<Piece>>)
    ensures r.None? <==> Hits(ix, s, 0, 0) == []
  {
    var hits := Hits(ix, s, 0, 0);
    ScanChain(ix, s);
    if hits == [] then None else Some(Pieces(s, hits))
  }

  /** The text a child stands for: its data, or the matched emoji. */
  function PieceText(p: Piece): string
  {
    match p
    case Run(t) => t
    case Img(m) => m.str
  }

  function Flatten(ps: seq<Piece>): string
    decreases |ps|
  {
    if ps == [] then [] else Flatten(ps[..|ps| - 1]) + PieceText(ps[|ps| - 1])
  }

  /** The entries behind the image children, in order. */
  function Images(ps: seq<Piece>): seq<EmojiMatch>
    decreases |ps|
  {
    if ps == [] then []
    else Images(ps[..|ps| - 1]) + (if ps[|ps| - 1].Img? then [ps[|ps| - 1].m] else [])
  }

  /** The entries behind a sequence of matches, in order. */
  function Entries(hits: seq<Hit>): (r: seq<EmojiMatch>)
    ensures |r| == |hits| && forall k :: 0 <= k < |hits| ==> r[k] == hits[k].m
  {
    seq(|hits|, k requires 0 <= k < |hits| => hits[k].m)
  }

  /** A match may be found anywhere inside the text: the scan starts past the previous match. */
  ghost predicate Covered(hits: seq<Hit>, j: nat)
  {
    exists k :: 0 <= k < |hits| && hits[k].at <= j && (hits[k].at == j || j < End(hits[k]))
  }

  lemma ConcatAssoc<T>(a: seq<T>, b: seq<T>, c: seq<T>)
    ensures a + (b + c) == a + b + c
  {
  }

  lemma JoinEmpty<T>(a: seq<T>)
    ensures a + [] == a
  {
  }

  lemma InitOfJoin<T>(a: seq<T>, b: seq<T>)
    requires b != []
    ensures (a + b)[..|a + b| - 1] == a + b[..|b| - 1]
  {
  }

  lemma {:induction false} FlattenAppend(a: seq<Piece>, b: seq<Piece>)
    ensures Flatten(a + b) == Flatten(a) + Flatten(b)
    decreases |b|
  {
    if b == [] {
      JoinEmpty(a);
      JoinEmpty(Flatten(a));
    } else {
      var b' := b[..|b| - 1];
      InitOfJoin(a, b);
      FlattenAppend(a, b');
      ConcatAssoc(Flatten(a), Flatten(b'), PieceText(b[|b| - 1]));
    }
  }

  lemma {:induction false} ImagesAppend(a: seq<Piece>, b: seq<Piece>)
    ensures Images(a + b) == Images(a) + Images(b)
    decreases |b|
  {
    if b == [] {
      JoinEmpty(a);
      JoinEmpty(Images(a));
    } else {
      var b' := b[..|b| - 1];
      InitOfJoin(a, b);
      ImagesAppend(a, b');
      ConcatAssoc(Images(a), Images(b'), (if b[|b| - 1].Img? then [b[|b| - 1].m] else []));
    }
  }

  lemma ConsumedBound(s: string, hits: seq<Hit>)
    requires Chain(s, hits)
    ensures Consumed(hits) <= |s|
  {
  }

  lemma InitOfSnoc<T>(a: seq<T>, x: T)
    ensures (a + [x])[..|a|] == a
  {
  }

  lemma PrefixSlice(s: string, i: nat, t: string)
    requires i <= |s| && t <= s[i..]
    ensures i + |t| <= |s| && s[i..i + |t|] == t
  {
  }

  /** A match that starts past the chain and fits the text extends the chain. */
  lemma ChainSnoc(s: string, found: seq<Hit>, h: Hit)
    requires Chain(s, found) && Consumed(found) <= h.at <= |s| && h.m.str <= s[h.at..]
    ensures Chain(s, found + [h]) && Consumed(found + [h]) == End(h)
  {
    PrefixSlice(s, h.at, h.m.str);
    InitOfSnoc(found, h);
  }

  /** The matches the scan takes form a chain: pieces of the text, in order, none overlapping. */
  lemma {:induction false} HitsChain(ix: Index, s: string, i: nat, found: seq<Hit>)
    requires i <= |s| && Chain(s, found)
    ensures Chain(s, found + Hits(ix, s, i, Consumed(found)))
    decreases |s| - i
  {
    var skip := Consumed(found);
    if i == |s| {
      JoinEmpty(found);
    } else if !Blocked(s, i, skip) && Eligible(ix, s, i) {
      var m := Chosen(ix, s, i);
      var h := Hit(i, m);
      ChainSnoc(s, found, h);
      HitsChain(ix, s, i + 1, found + [h]);
      ConcatAssoc(found, [h], Hits(ix, s, i + 1, End(h)));
    } else {
      HitsChain(ix, s, i + 1, found);
    }
  }

  lemma ScanChain(ix: Index, s: string)
    ensures Chain(s, Hits(ix, s, 0, 0))
  {
    HitsChain(ix, s, 0, []);
    assert [] + Hits(ix, s, 0, 0) == Hits(ix, s, 0, 0);
  }

  /** Every match starts at an eligible position and takes the first entry of its bucket that fits. */
  lemma {:induction false} HitsSound(ix: Index, s: string, i: nat, skip: nat)
    requires i <= |s|
    ensures forall k :: 0 <= k < |Hits(ix, s, i, skip)| ==>
      var h := Hits(ix, s, i, skip)[k];
      i <= h.at < |s| && Eligible(ix, s, h.at) && h.m == Chosen(ix, s, h.at)
    decreases |s| - i
  {
    if i < |s| {
      if !Blocked(s, i, skip) && Eligible(ix, s, i) {
        HitsSound(ix, s, i + 1, i + |Chosen(ix, s, i).str|);
      } else {
        HitsSound(ix, s, i + 1, skip);
      }
    }
  }

  /**
   * The scan misses nothing: every eligible position past the last match's
   * end is the start of a match or lies inside one.
   */
  lemma {:induction false} HitsCover(ix: Index, s: string, i: nat, skip: nat)
    requires i <= |s|
    ensures forall j :: i <= j < |s| && (skip == 0 || skip <= j) && Eligible(ix, s, j) ==>
      Covered(Hits(ix, s, i, skip), j)
    decreases |s| - i
  {
    if i < |s| {
      var hs := Hits(ix, s, i, skip);
      if !Blocked(s, i, skip) && Eligible(ix, s, i) {
        var m := Chosen(ix, s, i);
        var e := i + |m.str|;
        var rest := Hits(ix, s, i + 1, e);
        assert hs == [Hit(i, m)] + rest;
        HitsCover(ix, s, i + 1, e);
        forall j | i <= j < |s| && (skip == 0 || skip <= j) && Eligible(ix, s, j)
          ensures Covered(hs, j)
        {
          if j < e || j == i {
            assert hs[0].at <= j && (hs[0].at == j || j < End(hs[0]));
          } else {
            assert Covered(rest, j);
            var k :| 0 <= k < |rest| && rest[k].at <= j && (rest[k].at == j || j < End(rest[k]));
            assert hs[k + 1] == rest[k];
          }
        }
      } else {
        HitsCover(ix, s, i + 1, skip);
      }
    }
  }

  lemma SliceJoin(s: string, a: nat, b: nat, c: nat)
    requires a <= b <= c <= |s|
    ensures s[a..b] + s[b..c] == s[a..c]
  {
  }

  /** The children emitted for one match spell out the text from `c` to the match's end. */
  lemma LeadText(s: string, h: Hit, c: nat)
    requires c <= h.at && End(h) <= |s| && s[h.at..End(h)] == h.m.str
    ensures Flatten(Lead(s, h, c)) == s[c..End(h)]
  {
    var lead := if h.at > 0 && c < h.at then [Run(s[c..h.at])] else [];
    FlattenAppend(lead, [Img(h.m)]);
    assert Flatten([Img(h.m)]) == h.m.str;
    if h.at > 0 && c < h.at {
      assert Flatten(lead) == s[c..h.at];
      SliceJoin(s, c, h.at, End(h));
    } else {
      assert Flatten(lead) == [];
    }
  }

  /** The text is the concatenation of the emitted children's texts, up to the end of the last match. */
  lemma {:induction false} EmittedText(s: string, hits: seq<Hit>)
    requires Chain(s, hits)
    ensures Consumed(hits) <= |s| && Flatten(Emitted(s, hits)) == s[..Consumed(hits)]
    decreases |hits|
  {
    if hits != [] {
      var init, h := hits[..|hits| - 1], hits[|hits| - 1];
      var c := Consumed(init);
      EmittedText(s, init);
      FlattenAppend(Emitted(s, init), Lead(s, h, c));
      LeadText(s, h, c);
      SliceJoin(s, 0, c, End(h));
      assert s[..c] == s[0..c] && s[..End(h)] == s[0..End(h)];
    }
  }

  lemma TakeDrop(s: string, c: nat)
    requires c <= |s|
    ensures s[..c] + s[c..] == s
  {
  }

  /** Round trip: the span's children spell out the text exactly. */
  lemma RoundTrip(ix: Index, s: string)
    ensures Scan(ix, s).Some? ==> Flatten(Scan(ix, s).value) == s
  {
    ScanChain(ix, s);
  }

  /** `replaceEmojis` yields no span exactly when no entry fits at any eligible position. */
  lemma NoneIffNoMatch(ix: Index, s: string)
    ensures Scan(ix, s).None? <==> forall j :: 0 <= j < |s| ==> !Eligible(ix, s, j)
  {
    HitsSound(ix, s, 0, 0);
    HitsCover(ix, s, 0, 0);
    var hits := Hits(ix, s, 0, 0);
    if hits != [] {
      assert Eligible(ix, s, hits[0].at);
    }
    if exists j :: 0 <= j < |s| && Eligible(ix, s, j) {
      var j :| 0 <= j < |s| && Eligible(ix, s, j);
      assert Covered(hits, j);
    }
  }

  /**
   * The matches of the whole scan: each at a non-ASCII position and taking
   * the first fitting entry of that code point's bucket, in text order, none
   * overlapping the previous one, and leaving no eligible position uncovered.
   */
  lemma ScanMatches(ix: Index, s: string)
    ensures var hits := Hits(ix, s, 0, 0);
      Chain(s, hits) &&
      (forall k :: 0 <= k < |hits| ==>
        hits[k].at < |s| && Eligible(ix, s, hits[k].at) &&
        hits[k].m == Chosen(ix, s, hits[k].at) && s[hits[k].at..End(hits[k])] == hits[k].m.str) &&
      (forall a, b :: 0 <= a < b < |hits| ==> End(hits[a]) <= hits[b].at) &&
      (forall j :: 0 <= j < |s| && Eligible(ix, s, j) ==> Covered(hits, j))
  {
    var hits := Hits(ix, s, 0, 0);
    ScanChain(ix, s);
    HitsSound(ix, s, 0, 0);
    HitsCover(ix, s, 0, 0);
    ChainPieces(s, hits);
    ChainOrdered(s, hits);
  }

  /** Each match in a chain is the piece of text it names. */
  lemma {:induction false} ChainPieces(s: string, hits: seq<Hit>)
    requires Chain(s, hits)
    ensures forall k :: 0 <= k < |hits| ==> End(hits[k]) <= |s| && s[hits[k].at..End(hits[k])] == hits[k].m.str
    decreases |hits|
  {
    if hits != [] {
      var init := hits[..|hits| - 1];
      ChainPieces(s, init);
      forall k | 0 <= k < |hits| - 1
        ensures End(hits[k]) <= |s| && s[hits[k].at..End(hits[k])] == hits[k].m.str
      {
        assert hits[k] == init[k];
      }
    }
  }

  /** In a chain, every match ends before any later one starts. */
  lemma {:induction false} ChainOrdered(s: string, hits: seq<Hit>)
    requires Chain(s, hits)
    ensures forall a :: 0 <= a < |hits| ==> End(hits[a]) <= Consumed(hits)
    ensures forall a, b :: 0 <= a < b < |hits| ==> End(hits[a]) <= hits[b].at
    decreases |hits|
  {
    if hits != [] {
      var init, h := hits[..|hits| - 1], hits[|hits| - 1];
      ChainOrdered(s, init);
      forall a | 0 <= a < |hits| - 1 ensures hits[a] == init[a] && End(hits[a]) <= Consumed(init) {
        assert hits[a] == init[a];
      }
    }
  }

  /** Text runs are never empty, and a run is always followed by an image. */
  ghost predicate Alternates(ps: seq<Piece>)
  {
    (forall i :: 0 <= i < |ps| && ps[i].Run? ==> ps[i].text != []) &&
    (forall i :: 0 <= i < |ps| - 1 && ps[i].Run? ==> ps[i + 1].Img?)
  }

  /** Appending to a sequence that ends in an image keeps children alternating. */
  lemma AlternatesJoin(a: seq<Piece>, b: seq<Piece>)
    requires Alternates(a) && Alternates(b) && (a != [] ==> a[|a| - 1].Img?)
    ensures Alternates(a + b)
  {
    var ab := a + b;
    forall i | 0 <= i < |ab| - 1 && ab[i].Run? ensures ab[i + 1].Img? {
      if i < |a| - 1 {
        assert ab[i] == a[i] && ab[i + 1] == a[i + 1];
      } else if i >= |a| {
        assert ab[i] == b[i - |a|] && ab[i + 1] == b[i + 1 - |a|];
      }
    }
  }

  /** The children for one match: an optional non-empty run, then the image. */
  lemma LeadShape(s: string, h: Hit, c: nat)
    requires c <= h.at <= |s|
    ensures Alternates(Lead(s, h, c)) && Lead(s, h, c)[|Lead(s, h, c)| - 1] == Img(h.m)
    ensures Images(Lead(s, h, c)) == [h.m]
  {
    var lead := if h.at > 0 && c < h.at then [Run(s[c..h.at])] else [];
    ImagesAppend(lead, [Img(h.m)]);
    assert Images([Img(h.m)]) == [h.m] by {
      assert [Img(h.m)][..0] == [];
    }
    if lead != [] {
      assert Images(lead) == [] by {
        assert lead[..0] == [];
      }
    }
  }

  lemma LastOfJoin<T>(a: seq<T>, b: seq<T>)
    requires b != []
    ensures (a + b)[|a + b| - 1] == b[|b| - 1]
  {
  }

  lemma EntriesLast(hits: seq<Hit>)
    requires hits != []
    ensures Entries(hits) == Entries(hits[..|hits| - 1]) + [hits[|hits| - 1].m]
  {
  }

  lemma {:induction false} EmittedShape(s: string, hits: seq<Hit>)
    requires Chain(s, hits)
    ensures Alternates(Emitted(s, hits))
    ensures hits != [] ==> Emitted(s, hits)[|Emitted(s, hits)| - 1].Img?
    ensures Images(Emitted(s, hits)) == Entries(hits)
    decreases |hits|
  {
    if hits != [] {
      var init, h := hits[..|hits| - 1], hits[|hits| - 1];
      var c := Consumed(init);
      EmittedShape(s, init);
      var e, lead := Emitted(s, init), Lead(s, h, c);
      LeadShape(s, h, c);
      AlternatesJoin(e, lead);
      ImagesAppend(e, lead);
      LastOfJoin(e, lead);
      EntriesLast(hits);
    }
  }

  /**
   * The span's children: no empty text run, no two runs side by side, and
   * one image per match, in match order.
   */
  lemma ScanPieces(ix: Index, s: string)
    ensures Scan(ix, s).Some? ==>
      var ps := Scan(ix, s).value;
      Alternates(ps) && Images(ps) == Entries(Hits(ix, s, 0, 0))
  {
    var hits := Hits(ix, s, 0, 0);
    ScanChain(ix, s);
    if hits != [] {
      EmittedShape(s, hits);
      var c := Consumed(hits);
      var e := Emitted(s, hits);
      ImagesAppend(e, Leftover(s, c));
      if c < |s| {
        assert Images(Leftover(s, c)) == [] by {
          assert Leftover(s, c)[..0] == [];
        }
      } else {
        assert Leftover(s, c) == [] && e + [] == e;
      }
    }
  }
}
