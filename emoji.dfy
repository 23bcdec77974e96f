/**
 * emoji.go: the settings of a `Twemoji` (`New` and its options), the
 * `<img>` template built for each catalog entry (`node`), and `load`, which
 * decodes every asset file name into the emoji's code points and files the
 * entries into the index that `replaceEmojis` searches.
 */
module Emoji {
  import opened Results
  import opened Dom
  import opened Matching

  const OfficialCdn: string := "https://cdn.jsdelivr.net/gh/jdecked/twemoji@15.1.0/assets/"
  const DefaultClass: string := "emoji"

  // ---------------------------------------------------------------------
  // Formats and the CDN root

  /** `Format` is a string type: `SVG` and `PNG` are its named values, but any string may be given. */
  type Format = string

  const Svg: Format := "svg"
  const Png: Format := "png"

  /** `Format.Dir`: the asset directory of a format, `/` for a format it does not know. */
  function Dir(f: Format): (r: string)
    ensures |r| > 0 && r[|r| - 1] == '/'
    ensures r == "/" <==> f != Svg && f != Png
    ensures f == Svg ==> r == "svg/"
    ensures f == Png ==> r == "72x72/"
  {
    if f == Svg then "svg/" else if f == Png then "72x72/" else "/"
  }

  /** Whether `s` ends in a slash. */
  predicate EndsInSlash(s: string)
  {
    |s| > 0 && s[|s| - 1] == '/'
  }

  /** The href that `WithCDN` stores. */
  function CdnRoot(href: string): (r: string)
    ensures r == href || r == href + "/"
    ensures r == href + "/" <==> href != "" && !EndsInSlash(href)
    ensures r == "" <==> href == ""
    ensures r != "" ==> EndsInSlash(r)
  {
    if href != "" && !EndsInSlash(href) then href + "/" else href
  }

  /** Normalising a root that is already normalised changes nothing. */
  lemma CdnRootIdempotent(href: string)
    ensures CdnRoot(CdnRoot(href)) == CdnRoot(href)
  {
    var r := CdnRoot(href);
    assert r != "" ==> EndsInSlash(r);
  }

  // ---------------------------------------------------------------------
  // Settings and options

  /** `AttrFunc`: from the emoji's text and the default attributes, the attributes to use. */
  type AttrFunc = (string, seq<Attribute>) -> seq<Attribute>

  /** The fields of a `Twemoji` that the options set. */
  datatype Settings = Settings(cdn: string, className: string, format: Format, attrs: Maybe<AttrFunc>)

  /** The `Twemoji{...}` literal in `New`: the official CDN, SVG, class `emoji`, no hook. */
  const Defaults: Settings := Settings(OfficialCdn, DefaultClass, Svg, None)

  /**
   * An `Option` closure, as the field it assigns and the value it assigns:
   * `WithCDN`, `WithClass`, `WithAttrs` (whose hook may be nil) and
   * `WithFormat`.
   */
  datatype Option = SetCdn(cdn: string) | SetClass(className: string) | SetAttrs(attrs: Maybe<AttrFunc>) | SetFormat(format: Format)

  /** `WithCDN(href)`: the normalisation runs when the option is made, not when it is applied. */
  function WithCDN(href: string): (o: Option)
    ensures o.SetCdn? && (o.cdn == href || o.cdn == href + "/")
    ensures o.cdn == href + "/" <==> href != "" && !EndsInSlash(href)
  {
    SetCdn(CdnRoot(href))
  }

  /** Which field an option assigns. */
  function Field(o: Option): nat
  {
    match o
    case SetCdn(_) => 0
    case SetClass(_) => 1
    case SetAttrs(_) => 2
    case SetFormat(_) => 3
  }

  /** The field that `o` assigns holds the value `o` assigns. */
  ghost predicate Holds(s: Settings, o: Option)
  {
    match o
    case SetCdn(h) => s.cdn == h
    case SetClass(c) => s.className == c
    case SetAttrs(a) => s.attrs == a
    case SetFormat(f) => s.format == f
  }

  /** `s` and `r` agree on every field except field `k`. */
  ghost predicate AgreeBut(s: Settings, r: Settings, k: nat)
  {
    (k != 0 ==> r.cdn == s.cdn) && (k != 1 ==> r.className == s.className) &&
    (k != 2 ==> r.attrs == s.attrs) && (k != 3 ==> r.format == s.format)
  }

  /** `s` and `r` agree on field `k`. */
  ghost predicate Agree(s: Settings, r: Settings, k: nat)
  {
    (k == 0 ==> r.cdn == s.cdn) && (k == 1 ==> r.className == s.className) &&
    (k == 2 ==> r.attrs == s.attrs) && (k == 3 ==> r.format == s.format)
  }

  /** Applying one option: the field it names is assigned, the others are kept. */
  function Applied(s: Settings, o: Option): (r: Settings)
    ensures Holds(r, o) && AgreeBut(s, r, Field(o))
  {
    match o
    case SetCdn(h) => s.(cdn := h)
    case SetClass(c) => s.(className := c)
    case SetAttrs(a) => s.(attrs := a)
    case SetFormat(f) => s.(format := f)
  }

  /** Applying the options of `New` in the order given. */
  function Configure(s: Settings, opts: seq<Option>): (r: Settings)
    ensures opts != [] ==> Holds(r, opts[|opts| - 1])
    decreases |opts|
  {
    if opts == [] then s else Applied(Configure(s, opts[..|opts| - 1]), opts[|opts| - 1])
  }

  /** A later option overrides an earlier one: the last option for a field decides it. */
  lemma {:induction false} LastWins(s: Settings, opts: seq<Option>, i: nat)
    requires i < |opts| && forall j :: i < j < |opts| ==> Field(opts[j]) != Field(opts[i])
    ensures Holds(Configure(s, opts), opts[i])
    decreases |opts|
  {
    var init := opts[..|opts| - 1];
    if i < |opts| - 1 {
      forall j | i < j < |init| ensures Field(init[j]) != Field(init[i]) {
        assert init[j] == opts[j];
      }
      LastWins(s, init, i);
      var c := Configure(s, init);
      assert Holds(c, init[i]);
      assert AgreeBut(c, Applied(c, opts[|opts| - 1]), Field(opts[|opts| - 1]));
    }
  }

  /** A field that no option assigns keeps its starting value. */
  lemma {:induction false} Unset(s: Settings, opts: seq<Option>, k: nat)
    requires forall j :: 0 <= j < |opts| ==> Field(opts[j]) != k
    ensures Agree(s, Configure(s, opts), k)
    decreases |opts|
  {
    if opts != [] {
      var init := opts[..|opts| - 1];
      forall j | 0 <= j < |init| ensures Field(init[j]) != k {
        assert init[j] == opts[j];
      }
      Unset(s, init, k);
      var c, o := Configure(s, init), opts[|opts| - 1];
      assert Field(o) != k && AgreeBut(c, Applied(c, o), Field(o));
    }
  }

  // ---------------------------------------------------------------------
  // strconv.ParseInt(s, 16, 64)

  datatype NumKind = SyntaxError | RangeError

  /** What `load` can fail with. */
  datatype LoadError =
    | BadNumber(num: string, kind: NumKind)  // the `*strconv.NumError` of a part that does not parse
    | RenderFailed(msg: string)              // an error of `html.Render`
    | ShortName(base: string)                // the slice `src[:len(src)-3]` in `node` is out of range

  /** The value of a digit in base 16, in either case. */
  function HexDigit(c: char): (d: Maybe<nat>)
    ensures d.Some? ==> d.value < 16
    ensures d.Some? <==> '0' <= c <= '9' || 'a' <= c <= 'f' || 'A' <= c <= 'F'
    ensures '0' <= c <= '9' ==> d == Some(c as int - '0' as int)
    ensures 'a' <= c <= 'f' ==> d == Some(c as int - 'a' as int + 10)
    ensures 'A' <= c <= 'F' ==> d == Some(c as int - 'A' as int + 10)
  {
    if '0' <= c <= '9' then Some(c as int - '0' as int)
    else if 'a' <= c <= 'f' then Some(c as int - 'a' as int + 10)
    else if 'A' <= c <= 'F' then Some(c as int - 'A' as int + 10)
    else None
  }

  const Pow60: nat := 0x1000_0000_0000_0000
  const Pow63: nat := 0x8000_0000_0000_0000
  const Pow64: nat := 0x1_0000_0000_0000_0000

  /**
   * The digit loop of `strconv.ParseUint` from position `i`, with `n` read
   * so far: a character that is not a hex digit is a syntax error, and a
   * value that would pass 2^64 - 1 is a range error, whichever comes first.
   */
  function Digits(s: string, i: nat, n: nat): (r: Result<nat, NumKind>)
    requires i <= |s|
    ensures r.Ok? ==> n <= r.value && forall j :: i <= j < |s| ==> HexDigit(s[j]).Some?
    ensures r == Fail(SyntaxError) ==> exists j :: i <= j < |s| && HexDigit(s[j]).None?
    decreases |s| - i
  {
    if i == |s| then Ok(n)
    else match HexDigit(s[i])
      case None => Fail(SyntaxError)
      case Some(d) => if n >= Pow60 then Fail(RangeError) else Digits(s, i + 1, n * 16 + d)
  }

  /** The digits after an optional sign. */
  function Unsigned(s: string): string
  {
    if s != [] && (s[0] == '+' || s[0] == '-') then s[1..] else s
  }

  /** `strconv.ParseInt(s, 16, 64)`. */
  function ParseHex(s: string): (r: Result<int, LoadError>)
    ensures r.Fail? ==> r.error.BadNumber? && r.error.num == s
  {
    if s == "" then Fail(BadNumber(s, SyntaxError))
    else
      var neg := s[0] == '-';
      var body := Unsigned(s);
      if body == "" then Fail(BadNumber(s, SyntaxError))
      else match Digits(body, 0, 0)
        case Fail(k) => Fail(BadNumber(s, k))
        case Ok(un) =>
          if !neg && un >= Pow63 then Fail(BadNumber(s, RangeError))
          else if neg && un > Pow63 then Fail(BadNumber(s, RangeError))
          else Ok(if neg then -(un as int) else un as int)
  }

  // The reference reading of a hex numeral.

  ghost predicate AllHex(ds: string)
  {
    forall i :: 0 <= i < |ds| ==> HexDigit(ds[i]).Some?
  }

  /** The value of a string of hex digits, most significant first. */
  ghost function HexValue(ds: string): nat
    requires AllHex(ds)
    decreases |ds|
  {
    if ds == [] then 0 else HexValue(ds[..|ds| - 1]) * 16 + HexDigit(ds[|ds| - 1]).value
  }

  /** An optional sign followed by at least one hex digit. */
  ghost predicate IsHexNumeral(s: string)
  {
    Unsigned(s) != "" && AllHex(Unsigned(s))
  }

  ghost function NumeralValue(s: string): int
    requires IsHexNumeral(s)
  {
    if s[0] == '-' then -(HexValue(Unsigned(s)) as int) else HexValue(Unsigned(s)) as int
  }

  /** A longer string of digits has at least the value of its prefix. */
  lemma {:induction false} HexValuePrefix(ds: string, j: nat)
    requires AllHex(ds) && j <= |ds|
    ensures AllHex(ds[..j]) && HexValue(ds[..j]) <= HexValue(ds)
    decreases |ds|
  {
    if j < |ds| {
      var init := ds[..|ds| - 1];
      assert AllHex(init);
      HexValuePrefix(init, j);
      assert init[..j] == ds[..j];
    } else {
      assert ds[..j] == ds;
    }
  }

  lemma HexValueStep(ds: string, i: nat)
    requires i < |ds| && AllHex(ds[..i]) && HexDigit(ds[i]).Some?
    ensures AllHex(ds[..i + 1]) && HexValue(ds[..i + 1]) == HexValue(ds[..i]) * 16 + HexDigit(ds[i]).value
  {
    assert ds[..i + 1][..i] == ds[..i];
  }

  /** The digit loop succeeds exactly on a string of hex digits whose value fits in 64 bits, with that value. */
  lemma {:induction false} DigitsMeaning(s: string, i: nat)
    requires i <= |s| && AllHex(s[..i]) && HexValue(s[..i]) < Pow64
    ensures var r := Digits(s, i, HexValue(s[..i]));
      (r.Ok? <==> AllHex(s) && HexValue(s) < Pow64) && (r.Ok? ==> r.value == HexValue(s))
    decreases |s| - i
  {
    if i == |s| {
      assert s[..i] == s;
    } else if HexDigit(s[i]).Some? {
      HexValueStep(s, i);
      if HexValue(s[..i]) >= Pow60 {
        if AllHex(s) {
          HexValuePrefix(s, i + 1);
        }
      } else {
        DigitsMeaning(s, i + 1);
      }
    }
  }

  /** `ParseInt` accepts exactly a hex numeral whose value fits in a signed 64-bit integer, and yields that value. */
  lemma ParseHexMeaning(s: string)
    ensures ParseHex(s).Ok? <==> IsHexNumeral(s) && -(Pow63 as int) <= NumeralValue(s) < Pow63
    ensures ParseHex(s).Ok? ==> ParseHex(s).value == NumeralValue(s)
  {
    var body := Unsigned(s);
    if body != "" {
      assert body[..0] == "";
      DigitsMeaning(body, 0);
    }
  }

  // ---------------------------------------------------------------------
  // From code points to text

  /** `rune(n)`: the low 32 bits of `n`, as a signed 32-bit integer. */
  function ToRune(n: int): (r: int)
    ensures -0x8000_0000 <= r < 0x8000_0000 && (r - n) % 0x1_0000_0000 == 0
    ensures -0x8000_0000 <= n < 0x8000_0000 ==> r == n
  {
    (n + 0x8000_0000) % 0x1_0000_0000 - 0x8000_0000
  }

  /** A Unicode scalar value: a code point that is not a surrogate. */
  predicate IsScalar(r: int)
  {
    0 <= r < 0xD800 || 0xE000 <= r < 0x11_0000
  }

  /** One rune of `string(runes)`: an invalid rune becomes U+FFFD. */
  function RuneChar(r: int): (c: char)
    ensures IsScalar(r) ==> c as int == r
    ensures !IsScalar(r) ==> c == '�'
  {
    if IsScalar(r) then r as char else '�'
  }

  /** `string(runes)`, as code points: one character per rune. */
  function TextOf(rs: seq<int>): (s: string)
    ensures |s| == |rs| && forall i :: 0 <= i < |rs| ==> s[i] == RuneChar(rs[i])
  {
    seq(|rs|, i requires 0 <= i < |rs| => RuneChar(rs[i]))
  }

  /** `utf8.DecodeRuneInString(s)`'s rune: the first code point, U+FFFD for the empty string. */
  function Head(s: string): (c: char)
    ensures s != "" ==> c == s[0]
  {
    if s == "" then '�' else s[0]
  }

  // ---------------------------------------------------------------------
  // File names

  /** `path.Ext`, scanning back from position `i` over characters that are neither `.` nor `/`. */
  function ExtFrom(p: string, i: nat): (r: string)
    requires i <= |p| && forall j :: i <= j < |p| ==> p[j] != '.' && p[j] != '/'
    ensures |r| <= |p| && r == p[|p| - |r|..]
    ensures r != "" ==> r[0] == '.' && forall j :: 0 < j < |r| ==> r[j] != '.' && r[j] != '/'
    ensures r == "" ==> forall j :: 0 <= j < |p| && p[j] == '.' ==> exists k :: j < k < |p| && p[k] == '/'
    decreases i
  {
    if i == 0 then ""
    else if p[i - 1] == '/' then
      assert forall j :: 0 <= j < |p| && p[j] == '.' ==> j < i - 1 && p[i - 1] == '/';
      ""
    else if p[i - 1] == '.' then p[i - 1..]
    else ExtFrom(p, i - 1)
  }

  /**
   * `path.Ext(p)`: from the last `.` of the last path element on, or empty
   * when that element has no `.`.
   */
  function Ext(p: string): (r: string)
    ensures |r| <= |p| && r == p[|p| - |r|..]
    ensures r != "" ==> r[0] == '.' && forall j :: 0 < j < |r| ==> r[j] != '.' && r[j] != '/'
    ensures r == "" ==> forall j :: 0 <= j < |p| && p[j] == '.' ==> exists k :: j < k < |p| && p[k] == '/'
  {
    ExtFrom(p, |p|)
  }

  /** The file name without its extension. */
  function Stem(base: string): (r: string)
    ensures r + Ext(base) == base
  {
    base[..|base| - |Ext(base)|]
  }

  /** The parts with `sep` between each two, as Go's `strings.Join` builds them. */
  function Join(parts: seq<string>, sep: char): string
    requires |parts| >= 1
    decreases |parts|
  {
    if |parts| == 1 then parts[0] else parts[0] + [sep] + Join(parts[1..], sep)
  }

  /** Go's `strings.Split` on one separator: the pieces between separators, at least one, together spelling `s`. */
  function Split(s: string, sep: char): (r: seq<string>)
    ensures |r| >= 1 && Join(r, sep) == s
    ensures forall i :: 0 <= i < |r| ==> sep !in r[i]
    decreases |s|
  {
    if s == "" then [""]
    else
      var rest := Split(s[1..], sep);
      if s[0] == sep then
        assert Join([""] + rest, sep) == [sep] + Join(rest, sep) by {
          assert ([""] + rest)[1..] == rest;
        }
        [""] + rest
      else
        var r := [[s[0]] + rest[0]] + rest[1..];
        assert Join(r, sep) == [s[0]] + Join(rest, sep) by {
          if |rest| > 1 {
            assert r[1..] == rest[1..];
          }
        }
        r
  }

  /** Two separator-free lists of pieces that join to the same string are the same. */
  lemma {:induction false} JoinInjective(a: seq<string>, b: seq<string>, sep: char)
    requires |a| >= 1 && |b| >= 1 && Join(a, sep) == Join(b, sep)
    requires forall i :: 0 <= i < |a| ==> sep !in a[i]
    requires forall i :: 0 <= i < |b| ==> sep !in b[i]
    ensures a == b
    decreases |a|
  {
    var s := Join(a, sep);
    JoinFirst(a, sep);
    JoinFirst(b, sep);
    assert a[0] == b[0];
    if |a| > 1 && |b| > 1 {
      var n := |a[0]|;
      assert Join(a[1..], sep) == s[n + 1..];
      assert Join(b[1..], sep) == s[n + 1..];
      JoinInjective(a[1..], b[1..], sep);
      assert a == [a[0]] + a[1..] && b == [b[0]] + b[1..];
    }
  }

  /** The first piece of a join runs up to the first separator, and there is one after it exactly when more pieces follow. */
  lemma JoinFirst(a: seq<string>, sep: char)
    requires |a| >= 1 && sep !in a[0]
    ensures var s := Join(a, sep);
      |a[0]| <= |s| && s[..|a[0]|] == a[0] &&
      (|a| > 1 <==> |a[0]| < |s|) &&
      (|a| > 1 ==> s[|a[0]|] == sep && s[|a[0]| + 1..] == Join(a[1..], sep))
  {
    if |a| > 1 {
      var s := Join(a, sep);
      assert s == a[0] + ([sep] + Join(a[1..], sep));
    }
  }

  /** Splitting a join of separator-free pieces gives the pieces back. */
  lemma SplitJoin(parts: seq<string>, sep: char)
    requires |parts| >= 1 && forall i :: 0 <= i < |parts| ==> sep !in parts[i]
    ensures Split(Join(parts, sep), sep) == parts
  {
    JoinInjective(Split(Join(parts, sep), sep), parts, sep);
  }

  /** A name ending in an extension without further dots or slashes has that extension, and the rest as its stem. */
  lemma StemOf(stem: string, ext: string)
    requires ext != "" && ext[0] == '.' && forall j :: 0 < j < |ext| ==> ext[j] != '.' && ext[j] != '/'
    ensures Ext(stem + ext) == ext && Stem(stem + ext) == stem
  {
    var p := stem + ext;
    var r := Ext(p);
    assert p[|stem|] == '.';
    assert forall k :: |stem| < k < |p| ==> p[k] == ext[k - |stem|];
    assert r == p[|stem|..] == ext;
  }

  /**
   * The catalog's naming scheme read back: the code points' hex forms
   * joined with `-`, plus an extension, split back into the same parts.
   */
  lemma NameRoundTrip(parts: seq<string>, ext: string)
    requires |parts| >= 1 && forall i :: 0 <= i < |parts| ==> '-' !in parts[i]
    requires ext != "" && ext[0] == '.' && forall j :: 0 < j < |ext| ==> ext[j] != '.' && ext[j] != '/'
    ensures Split(Stem(Join(parts, '-') + ext), '-') == parts
  {
    StemOf(Join(parts, '-'), ext);
    SplitJoin(parts, '-');
  }

  // ---------------------------------------------------------------------
  // Parts to runes

  /** The runes of the parts of a file name, or the error of the first part that does not parse. */
  function RunesOf(hexes: seq<string>): (r: Result<seq<int>, LoadError>)
    ensures r.Ok? <==> forall i :: 0 <= i < |hexes| ==> ParseHex(hexes[i]).Ok?
    ensures r.Ok? ==>
      |r.value| == |hexes| &&
      forall i :: 0 <= i < |hexes| ==> r.value[i] == ToRune(ParseHex(hexes[i]).value)
    ensures r.Fail? ==>
      exists i :: 0 <= i < |hexes| && ParseHex(hexes[i]) == Fail(r.error) &&
        forall j :: 0 <= j < i ==> ParseHex(hexes[j]).Ok?
    decreases |hexes|
  {
    if hexes == [] then Ok([])
    else
      var init := hexes[..|hexes| - 1];
      assert forall i :: 0 <= i < |init| ==> init[i] == hexes[i];
      match RunesOf(init)
      case Fail(e) => Fail(e)
      case Ok(rs) =>
        match ParseHex(hexes[|hexes| - 1])
        case Fail(e) => Fail(e)
        case Ok(n) => Ok(rs + [ToRune(n)])
  }

  /** A failure of a prefix's parts is the failure of the whole. */
  lemma {:induction false} RunesOfFails(hexes: seq<string>, i: nat)
    requires i <= |hexes| && RunesOf(hexes[..i]).Fail?
    ensures RunesOf(hexes) == RunesOf(hexes[..i])
    decreases |hexes| - i
  {
    if i < |hexes| {
      var p := hexes[..i + 1];
      assert p[..i] == hexes[..i];
      RunesOfFails(hexes, i + 1);
    } else {
      assert hexes[..i] == hexes;
    }
  }

  /** One more part: the runes so far gain its rune, or its failure becomes the result. */
  lemma RunesOfStep(hexes: seq<string>, i: nat, rs: seq<int>)
    requires i < |hexes| && RunesOf(hexes[..i]) == Ok(rs)
    ensures RunesOf(hexes[..i + 1]) ==
      match ParseHex(hexes[i])
      case Fail(e) => Fail(e)
      case Ok(n) => Ok(rs + [ToRune(n)])
  {
    assert hexes[..i + 1][..i] == hexes[..i];
  }

  /** The inner loop of `load`: `runes[i] = rune(n)` for each part, or the first error. */
  method ParseRunes(hexes: seq<string>) returns (r: Result<seq<int>, LoadError>)
    ensures r == RunesOf(hexes)
  {
    var runes := new int[|hexes|];
    for i := 0 to |hexes|
      invariant RunesOf(hexes[..i]) == Ok(runes[..i])
    {
      var n := ParseHex(hexes[i]);
      RunesOfStep(hexes, i, runes[..i]);
      if n.Fail? {
        RunesOfFails(hexes, i + 1);
        return Fail(n.error);
      }
      runes[i] := ToRune(n.value);
      assert runes[..i + 1] == runes[..i] + [ToRune(n.value)];
    }
    assert hexes[..|hexes|] == hexes && runes[..|hexes|] == runes[..];
    return Ok(runes[..]);
  }

  // ---------------------------------------------------------------------
  // The template node

  /** The six attributes `node` starts from, in order. */
  function DefaultAttrs(className: string, src: string, emoji: string): seq<Attribute>
  {
    [Attribute("draggable", "false"), Attribute("class", className), Attribute("src", src),
     Attribute("width", "72"), Attribute("height", "72"), Attribute("alt", emoji)]
  }

  /** The asset's file name in a format: for PNG the last three characters, the `svg` of the catalog, become `png`. */
  function AssetName(f: Format, base: string): (r: string)
    requires f == Png ==> |base| >= 3
    ensures |r| == |base|
    ensures f != Png ==> r == base
    ensures f == Png ==> r[..|r| - 3] == base[..|base| - 3] && r[|r| - 3..] == "png"
  {
    if f == Png then base[..|base| - 3] + "png" else base
  }

  /** `tw.node(emoji, src)`: the `<img>` template of a catalog entry. */
  function Node(s: Settings, emoji: string, base: string): (c: Content)
    requires s.format == Png ==> |base| >= 3
    ensures c.kind == ElementNode && c.data == "img"
  {
    var defaults := DefaultAttrs(s.className, s.cdn + Dir(s.format) + AssetName(s.format, base), emoji);
    Content(ElementNode, "img", if s.attrs.Some? then s.attrs.value(emoji, defaults) else defaults)
  }

  function Keys(attrs: seq<Attribute>): (ks: seq<string>)
    ensures |ks| == |attrs| && forall i :: 0 <= i < |attrs| ==> ks[i] == attrs[i].key
  {
    seq(|attrs|, i requires 0 <= i < |attrs| => attrs[i].key)
  }

  /**
   * Without a hook, the template's attributes are exactly `draggable`,
   * `class`, `src`, `width`, `height` and `alt`, in that order, with `src`
   * the CDN root, the format's directory and the asset name, and `alt` the
   * emoji itself; with a hook, they are whatever the hook makes of those.
   */
  lemma NodeAttrs(s: Settings, emoji: string, base: string)
    requires s.format == Png ==> |base| >= 3
    ensures var c := Node(s, emoji, base);
      var d := DefaultAttrs(s.className, s.cdn + Dir(s.format) + AssetName(s.format, base), emoji);
      (s.attrs.None? ==>
        Keys(c.attrs) == ["draggable", "class", "src", "width", "height", "alt"] &&
        c.attrs[0].val == "false" && c.attrs[1].val == s.className &&
        c.attrs[2].val == s.cdn + Dir(s.format) + AssetName(s.format, base) &&
        c.attrs[3].val == "72" && c.attrs[4].val == "72" && c.attrs[5].val == emoji) &&
      (s.attrs.Some? ==> c.attrs == s.attrs.value(emoji, d))
  {
    var c := Node(s, emoji, base);
    if s.attrs.None? {
      assert Keys(c.attrs) == ["draggable", "class", "src", "width", "height", "alt"];
    }
  }

  /** The crow of the catalog: its asset name splits into three parts ... */
  lemma CrowName()
    ensures Split(Stem("1f426-200d-2b1b.svg"), '-') == ["1f426", "200d", "2b1b"]
  {
    var parts := ["1f426", "200d", "2b1b"];
    assert Join(parts[1..], '-') == "200d-2b1b" by {
      assert parts[1..][1..] == ["2b1b"];
    }
    assert Join(parts, '-') == "1f426-200d-2b1b";
    assert "1f426-200d-2b1b" + ".svg" == "1f426-200d-2b1b.svg";
    NameRoundTrip(parts, ".svg");
  }

  /** ... each of which is a hex numeral ... */
  lemma CrowHex()
    ensures ParseHex("1f426") == Ok(0x1F426) && ParseHex("200d") == Ok(0x200D) && ParseHex("2b1b") == Ok(0x2B1B)
  {
    assert Digits("1f426", 0, 0) == Ok(0x1F426);
    assert Digits("200d", 0, 0) == Ok(0x200D);
    assert Digits("2b1b", 0, 0) == Ok(0x2B1B);
  }

  /** ... so that they make the runes of U+1F426 U+200D U+2B1B ... */
  lemma CrowRunes()
    ensures RunesOf(["1f426", "200d", "2b1b"]) == Ok([0x1F426, 0x200D, 0x2B1B])
  {
    CrowHex();
    var h := ["1f426", "200d", "2b1b"];
    assert h[0] == "1f426" && h[1] == "200d" && h[2] == "2b1b";
    var r := RunesOf(h);
    assert forall i :: 0 <= i < |h| ==> ParseHex(h[i]).Ok?;
    assert r.value == [0x1F426, 0x200D, 0x2B1B];
  }

  /** ... whose text is the emoji itself ... */
  lemma CrowText()
    ensures TextOf([0x1F426, 0x200D, 0x2B1B]) == "\U{1F426}\U{200D}\U{2B1B}"
  {
  }

  /** ... and whose template points at the SVG, or at the 72x72 PNG, on the CDN. */
  lemma CrowSrc()
    ensures Node(Defaults, "\U{1F426}\U{200D}\U{2B1B}", "1f426-200d-2b1b.svg").attrs[2] ==
      Attribute("src", OfficialCdn + "svg/" + "1f426-200d-2b1b.svg")
    ensures Node(Defaults.(format := Png), "\U{1F426}\U{200D}\U{2B1B}", "1f426-200d-2b1b.svg").attrs[2] ==
      Attribute("src", OfficialCdn + "72x72/" + "1f426-200d-2b1b.png")
  {
    var base := "1f426-200d-2b1b.svg";
    assert Dir(Svg) == "svg/" && Dir(Png) == "72x72/";
    assert AssetName(Svg, base) == base;
    assert AssetName(Png, base) == "1f426-200d-2b1b.png" by {
      assert base[..|base| - 3] == "1f426-200d-2b1b.";
    }
  }

  // ---------------------------------------------------------------------
  // Catalog entries

  /** `html.Render` writing a node into the buffer: the markup, or its error. */
  type Render = Content -> Result<string, string>

  /** A catalog entry and its rendered markup, the value `keyvals` pairs with its text. */
  datatype Item = Item(m: EmojiMatch, elem: string)

  /** One turn of the loop of `load`: the entry for asset file `base`, or what stops the loop. */
  function MakeItem(s: Settings, render: Render, base: string): (r: Result<Item, LoadError>)
    ensures r.Ok? ==>
      r.value.m.img == base && |r.value.m.str| == |Split(Stem(base), '-')| &&
      r.value.m.node.kind == ElementNode && r.value.m.node.data == "img"
  {
    match RunesOf(Split(Stem(base), '-'))
    case Fail(e) => Fail(e)
    case Ok(rs) =>
      var str := TextOf(rs);
      if s.format == Png && |base| < 3 then Fail(ShortName(base))
      else
        var node := Node(s, str, base);
        match render(node)
        case Fail(msg) => Fail(RenderFailed(msg))
        case Ok(elem) => Ok(Item(EmojiMatch(str, base, node), elem))
  }

  /**
   * An entry's text has one code point per `-`-separated part of its file
   * name, the part's hex value as a rune; a part that is not a hex numeral
   * is the error of the turn, and so is a failed render.
   */
  lemma MakeItemMeaning(s: Settings, render: Render, base: string)
    ensures var parts := Split(Stem(base), '-'); var r := MakeItem(s, render, base);
      ((exists i :: 0 <= i < |parts| && ParseHex(parts[i]).Fail?) ==> r.Fail? && r.error.BadNumber?) &&
      (r.Ok? ==>
        |r.value.m.str| == |parts| &&
        (forall i :: 0 <= i < |parts| ==> r.value.m.str[i] == RuneChar(ToRune(ParseHex(parts[i]).value))) &&
        r.value.m.node == Node(s, r.value.m.str, base) && render(r.value.m.node) == Ok(r.value.elem))
  {
    var parts := Split(Stem(base), '-');
    var rs := RunesOf(parts);
    if rs.Fail? {
      var i :| 0 <= i < |parts| && ParseHex(parts[i]) == Fail(rs.error);
      assert MakeItem(s, render, base) == Fail(rs.error);
    } else {
      var str := TextOf(rs.value);
      assert MakeItem(s, render, base).Ok? ==> MakeItem(s, render, base).value.m.str == str;
    }
  }

  /** One turn of a loop over file names. */
  type Turn = string -> Result<Item, LoadError>

  /** The turn of `load` under settings `s`. */
  function LoadTurn(s: Settings, render: Render): (mk: Turn)
    ensures forall base :: mk(base) == MakeItem(s, render, base)
  {
    base => MakeItem(s, render, base)
  }

  /** What the loop of `load` got through: the entries made, and the error it stopped at, if any. */
  datatype Built = Built(items: seq<Item>, err: Maybe<LoadError>)

  /** The loop of `load` over the catalog, as a value. */
  function Build(mk: Turn, files: seq<string>): (b: Built)
    ensures |b.items| <= |files| && (b.err.None? <==> |b.items| == |files|)
    decreases |files|
  {
    if files == [] then Built([], None)
    else
      var b := Build(mk, files[..|files| - 1]);
      if b.err.Some? then b
      else match mk(files[|files| - 1])
        case Fail(e) => Built(b.items, Some(e))
        case Ok(it) => Built(b.items + [it], None)
  }

  /**
   * What `b` says about the loop of `load` over `files`: its entries are
   * those of the first files, in catalog order; it stops at the first file
   * whose entry cannot be made, with that file's error, and it gets through
   * every file otherwise.
   */
  ghost predicate Made(mk: Turn, files: seq<string>, b: Built)
  {
    |b.items| <= |files| && (b.err.None? <==> |b.items| == |files|) &&
    (forall i :: 0 <= i < |b.items| ==> mk(files[i]) == Ok(b.items[i])) &&
    (b.err.Some? ==> mk(files[|b.items|]) == Fail(b.err.value))
  }

  lemma {:induction false} BuildMeaning(mk: Turn, files: seq<string>)
    ensures Made(mk, files, Build(mk, files))
    decreases |files|
  {
    if files != [] {
      var init := files[..|files| - 1];
      BuildMeaning(mk, init);
      SnocOfInit(files);
      BuildSnoc(mk, init, files[|files| - 1]);
    }
  }

  lemma SnocOfInit<T>(a: seq<T>)
    requires a != []
    ensures a[..|a| - 1] + [a[|a| - 1]] == a
  {
  }

  lemma BuildSnoc(mk: Turn, init: seq<string>, f: string)
    requires Made(mk, init, Build(mk, init))
    ensures Made(mk, init + [f], Build(mk, init + [f]))
  {
    var files := init + [f];
    InitOfSnoc(init, f);
    var b := Build(mk, init);
    if b.err.None? {
      var r := mk(f);
      if r.Ok? {
        assert Build(mk, files) == Built(b.items + [r.value], None);
        MadeOk(mk, init, f, b, r.value);
      } else {
        assert Build(mk, files) == Built(b.items, Some(r.error));
        MadeFail(mk, init, f, b, r.error);
      }
    } else {
      assert Build(mk, files) == b;
      MadeStuck(mk, init, f, b);
    }
  }

  lemma MadeStuck(mk: Turn, init: seq<string>, f: string, b: Built)
    requires Made(mk, init, b) && b.err.Some?
    ensures Made(mk, init + [f], b)
  {
    var files := init + [f];
    forall i | 0 <= i < |b.items|
      ensures mk(files[i]) == Ok(b.items[i])
    {
      assert files[i] == init[i];
    }
    assert files[|b.items|] == init[|b.items|];
  }

  lemma MadeFail(mk: Turn, init: seq<string>, f: string, b: Built, e: LoadError)
    requires Made(mk, init, b) && b.err.None? && mk(f) == Fail(e)
    ensures Made(mk, init + [f], Built(b.items, Some(e)))
  {
    var files := init + [f];
    forall i | 0 <= i < |b.items|
      ensures mk(files[i]) == Ok(b.items[i])
    {
      assert files[i] == init[i];
    }
    assert files[|init|] == f;
  }

  lemma MadeOk(mk: Turn, init: seq<string>, f: string, b: Built, it: Item)
    requires Made(mk, init, b) && b.err.None? && mk(f) == Ok(it)
    ensures Made(mk, init + [f], Built(b.items + [it], None))
  {
    var files := init + [f];
    var items := b.items + [it];
    forall i | 0 <= i < |items|
      ensures mk(files[i]) == Ok(items[i])
    {
      if i < |init| {
        assert files[i] == init[i] && items[i] == b.items[i];
      }
    }
  }

  /** The loop's outcome is fixed by which files make entries: it is the only one that fits. */
  lemma BuildUnique(mk: Turn, files: seq<string>, items: seq<Item>, err: Maybe<LoadError>)
    requires Made(mk, files, Built(items, err))
    ensures Build(mk, files) == Built(items, err)
  {
    BuildMeaning(mk, files);
    var b := Build(mk, files);
    if |b.items| < |items| {
      assert false;
    } else if |items| < |b.items| {
      assert false;
    }
    forall i | 0 <= i < |items|
      ensures b.items[i] == items[i]
    {
    }
    assert b.items == items;
  }

  /** The arguments of `strings.NewReplacer`: text and markup of each entry, in catalog order. */
  function KeyVals(items: seq<Item>): (kv: seq<string>)
    ensures |kv| == 2 * |items|
    ensures forall i :: 0 <= i < |items| ==> kv[2 * i] == items[i].m.str && kv[2 * i + 1] == items[i].elem
    decreases |items|
  {
    if items == [] then []
    else
      var init := items[..|items| - 1];
      assert forall i :: 0 <= i < |init| ==> init[i] == items[i];
      KeyVals(init) + [items[|items| - 1].m.str, items[|items| - 1].elem]
  }

  function Matches(items: seq<Item>): (ms: seq<EmojiMatch>)
    ensures |ms| == |items| && forall i :: 0 <= i < |items| ==> ms[i] == items[i].m
  {
    seq(|items|, i requires 0 <= i < |items| => items[i].m)
  }

  // ---------------------------------------------------------------------
  // The index

  /** `tw.nodes[c]`, nil for a missing key. */
  function Get(ix: Index, c: char): seq<EmojiMatch>
  {
    if c in ix then ix[c] else []
  }

  /** Appending an entry to the bucket of its first code point, creating the bucket when missing. */
  function Add(ix: Index, m: EmojiMatch): (r: Index)
    ensures r.Keys == ix.Keys + {Head(m.str)}
  {
    ix[Head(m.str) := Get(ix, Head(m.str)) + [m]]
  }

  /** The index after appending each entry to the bucket of its first code point, in order. */
  function Bucket(ix: Index, ms: seq<EmojiMatch>): (r: Index)
    ensures ix.Keys <= r.Keys && forall k :: 0 <= k < |ms| ==> Head(ms[k].str) in r
    decreases |ms|
  {
    if ms == [] then ix else Add(Bucket(ix, ms[..|ms| - 1]), ms[|ms| - 1])
  }

  /** The entries whose first code point is `c`, in order. */
  function Filter(ms: seq<EmojiMatch>, c: char): (r: seq<EmojiMatch>)
    ensures |r| <= |ms| && forall k :: 0 <= k < |r| ==> Head(r[k].str) == c
    decreases |ms|
  {
    if ms == [] then []
    else
      var init := Filter(ms[..|ms| - 1], c);
      if Head(ms[|ms| - 1].str) == c then init + [ms[|ms| - 1]] else init
  }

  /** A bucket is what it was followed by the entries with its code point, in catalog order; no other key appears. */
  lemma {:induction false} BucketFilter(ix: Index, ms: seq<EmojiMatch>, c: char)
    ensures Get(Bucket(ix, ms), c) == Get(ix, c) + Filter(ms, c)
    ensures c in Bucket(ix, ms) <==> c in ix || Filter(ms, c) != []
    decreases |ms|
  {
    if ms != [] {
      BucketFilter(ix, ms[..|ms| - 1], c);
    }
  }

  /** Each entry is in exactly one bucket: the one of its first code point. */
  lemma {:induction false} FilterMembers(ms: seq<EmojiMatch>, c: char, m: EmojiMatch)
    ensures m in Filter(ms, c) <==> m in ms && Head(m.str) == c
    decreases |ms|
  {
    if ms != [] {
      var init := ms[..|ms| - 1];
      FilterMembers(init, c, m);
      assert ms == init + [ms[|ms| - 1]];
    }
  }

  /** Filtering keeps catalog order: the entries of an earlier part of the catalog come first. */
  lemma {:induction false} FilterJoin(a: seq<EmojiMatch>, b: seq<EmojiMatch>, c: char)
    ensures Filter(a + b, c) == Filter(a, c) + Filter(b, c)
    decreases |b|
  {
    if b == [] {
      JoinEmpty(a);
      JoinEmpty(Filter(a, c));
    } else {
      var bi := b[..|b| - 1];
      var x := b[|b| - 1];
      InitOfJoin(a, b);
      FilterJoin(a, bi, c);
      assert (a + b)[|a + b| - 1] == x;
      if Head(x.str) == c {
        ConcatAssoc(Filter(a, c), Filter(bi, c), [x]);
      }
    }
  }

  // ---------------------------------------------------------------------
  // Twemoji

  /** A `Twemoji`: its settings, its replacer (as the argument list it was made from) and its index. */
  class Twemoji {
    var cdn: string
    var className: string
    var format: Format
    var attrs: Maybe<AttrFunc>
    /** The replacer, kept as the text/markup list it is built from; `None` until `load` gets through the catalog. */
    var replacer: Maybe<seq<string>>
    var nodes: Index

    function Config(): Settings
      reads this`cdn, this`className, this`format, this`attrs
    {
      Settings(cdn, className, format, attrs)
    }

    /** The `Twemoji{...}` literal that `New` starts from. */
    constructor ()
      ensures Config() == Defaults && nodes == map[] && replacer == None
    {
      cdn, className, format, attrs := OfficialCdn, DefaultClass, Svg, None;
      replacer, nodes := None, map[];
    }

    /** Applies one option to this value. */
    method Apply(o: Option)
      modifies this
      ensures Config() == Applied(old(Config()), o) && nodes == old(nodes) && replacer == old(replacer)
    {
      match o
      case SetCdn(h) => cdn := h;
      case SetClass(c) => className := c;
      case SetAttrs(a) => attrs := a;
      case SetFormat(f) => format := f;
    }

    /**
     * One turn of the loop of `load`: the file name without its extension,
     * split at `-`, parsed part by part, and the template rendered.
     */
    method Entry(base: string, render: Render) returns (r: Result<Item, LoadError>)
      ensures r == MakeItem(Config(), render, base)
    {
      var ext := Ext(base);
      var filename := base[..|base| - |ext|];
      var hexes := Split(filename, '-');
      var runes := ParseRunes(hexes);
      if runes.Fail? {
        return Fail(runes.error);
      }
      var str := TextOf(runes.value);
      if format == Png && |base| < 3 {
        return Fail(ShortName(base));
      }
      var node := Node(Config(), str, base);
      var elem := render(node);
      if elem.Fail? {
        return Fail(RenderFailed(elem.error));
      }
      return Ok(Item(EmojiMatch(str, base, node), elem.value));
    }

    /**
     * `tw.load()` over the catalog `files`: every entry is appended to the
     * bucket of its first code point, and when the whole catalog decoded the
     * replacer is made from the text/markup pairs. On an error the entries
     * before it stay in the index and the replacer is not made.
     */
    method Load(files: seq<string>, render: Render) returns (err: Maybe<LoadError>)
      modifies this`nodes, this`replacer
      ensures var b := Build(LoadTurn(Config(), render), files);
        err == b.err && nodes == Bucket(old(nodes), Matches(b.items)) &&
        replacer == (if err.None? then Some(KeyVals(b.items)) else old(replacer))
    {
      ghost var mk := LoadTurn(Config(), render);
      ghost var nodes0 := nodes;
      ghost var items: seq<Item> := [];
      var keyvals: seq<string> := [];
      for i := 0 to |files|
        invariant Loaded(mk, files, i, items, keyvals, nodes0, nodes) && replacer == old(replacer)
      {
        var entry := Entry(files[i], render);
        assert mk(files[i]) == entry;
        if entry.Fail? {
          LoadFail(mk, files, i, items, keyvals, nodes0, nodes, entry.error);
          return Some(entry.error);
        }
        LoadStep(mk, files, i, items, keyvals, nodes0, nodes, entry.value);
        var item := entry.value.m;
        keyvals := keyvals + [item.str, entry.value.elem];
        var head := Head(item.str);
        var matches := Get(nodes, head);
        matches := matches + [item];
        nodes := nodes[head := matches];
        items := items + [entry.value];
      }
      LoadDone(mk, files, items, keyvals, nodes0, nodes);
      replacer := Some(keyvals);
      return None;
    }
  }

  /** Where the loop of `load` stands before turn `i`: the first `i` files made entries, all in the index and the list. */
  ghost predicate Loaded(mk: Turn, files: seq<string>, i: nat, items: seq<Item>,
                         keyvals: seq<string>, ix0: Index, ix: Index)
  {
    i <= |files| && |items| == i &&
    (forall j :: 0 <= j < i ==> mk(files[j]) == Ok(items[j])) &&
    keyvals == KeyVals(items) && ix == Bucket(ix0, Matches(items))
  }

  /** One entry made: the list and the index take it, at the end. */
  lemma LoadStep(mk: Turn, files: seq<string>, i: nat, items: seq<Item>,
                 keyvals: seq<string>, ix0: Index, ix: Index, it: Item)
    requires Loaded(mk, files, i, items, keyvals, ix0, ix)
    requires i < |files| && mk(files[i]) == Ok(it)
    ensures Loaded(mk, files, i + 1, items + [it], keyvals + [it.m.str, it.elem], ix0, Add(ix, it.m))
  {
    KeyValsSnoc(items, it);
    BucketSnoc(ix0, items, it);
    var items' := items + [it];
    forall j | 0 <= j < i + 1
      ensures mk(files[j]) == Ok(items'[j])
    {
      if j < i {
        assert items'[j] == items[j];
      }
    }
  }

  lemma KeyValsSnoc(items: seq<Item>, it: Item)
    ensures KeyVals(items + [it]) == KeyVals(items) + [it.m.str, it.elem]
  {
    InitOfSnoc(items, it);
  }

  lemma BucketSnoc(ix0: Index, items: seq<Item>, it: Item)
    ensures Bucket(ix0, Matches(items + [it])) == Add(Bucket(ix0, Matches(items)), it.m)
  {
    var ms := Matches(items + [it]);
    assert ms[..|items|] == Matches(items);
    assert ms[|items|] == it.m;
  }

  /** The loop stopped at turn `i` with error `e`: that is the outcome `Build` gives. */
  lemma LoadFail(mk: Turn, files: seq<string>, i: nat, items: seq<Item>,
                 keyvals: seq<string>, ix0: Index, ix: Index, e: LoadError)
    requires Loaded(mk, files, i, items, keyvals, ix0, ix)
    requires i < |files| && mk(files[i]) == Fail(e)
    ensures var b := Build(mk, files); b.err == Some(e) && ix == Bucket(ix0, Matches(b.items))
  {
    BuildUnique(mk, files, items, Some(e));
  }

  /** The loop got through the catalog: `Build` gets through it with the same entries. */
  lemma LoadDone(mk: Turn, files: seq<string>, items: seq<Item>,
                 keyvals: seq<string>, ix0: Index, ix: Index)
    requires Loaded(mk, files, |files|, items, keyvals, ix0, ix)
    ensures var b := Build(mk, files);
      b.err == None && ix == Bucket(ix0, Matches(b.items)) && keyvals == KeyVals(b.items)
  {
    BuildUnique(mk, files, items, None);
  }

  /**
   * `New(opts...)`: the defaults, then each option in order, then `load`.
   * Where `New` panics on an error of `load`, this returns the error.
   */
  method New(opts: seq<Option>, files: seq<string>, render: Render) returns (tw: Twemoji, err: Maybe<LoadError>)
    ensures fresh(tw) && tw.Config() == Configure(Defaults, opts)
    ensures var b := Build(LoadTurn(tw.Config(), render), files);
      err == b.err && tw.nodes == Bucket(map[], Matches(b.items)) &&
      tw.replacer == (if err.None? then Some(KeyVals(b.items)) else None)
  {
    tw := new Twemoji();
    for i := 0 to |opts|
      invariant tw.Config() == Configure(Defaults, opts[..i]) && tw.nodes == map[] && tw.replacer == None
    {
      assert opts[..i + 1][..i] == opts[..i];
      tw.Apply(opts[i]);
    }
    assert opts[..|opts|] == opts;
    err := tw.Load(files, render);
  }
}
