/** `generateId`: every `x` of the template becomes one random hexadecimal digit and the `y`
    becomes `8`, `9`, `a` or `b`. The random source is an input here: `draws` holds, in order,
    the value of `Math.random() * 16 | 0` for each placeholder the replacement visits. */
module IdGen {

  /** One draw: an integer in 0..15. */
  type Nibble = n: int | 0 <= n < 16

  const Template: string := "xxxxxxxx-xxxx-4xxx-yxxx-xxxxxxxxxxxx"
  const HexDigits: string := "0123456789abcdef"

  /** `v.toString(16)` for a value below 16: one lowercase hexadecimal digit. */
  function HexDigit(v: Nibble): (c: char)
    ensures c in HexDigits
  {
    HexDigits[v]
  }

  predicate IsHexDigit(c: char) {
    c in HexDigits
  }

  /** The value a lowercase hexadecimal digit stands for. */
  function HexValue(c: char): (v: Nibble)
    requires IsHexDigit(c)
    ensures HexDigit(v) == c
  {
    if '0' <= c <= '9' then (c - '0') as int else (c - 'a') as int + 10
  }

  lemma HexValueOfDigit(v: Nibble)
    ensures HexValue(HexDigit(v)) == v
  {
  }

  /** `r & 0x3 | 0x8`: keeps the two low bits of the draw and sets bit 3, so the `y` digit is
      one of `8`, `9`, `a`, `b`. */
  function Variant(r: Nibble): (v: Nibble)
    ensures v == 8 + r % 4
  {
    (((r as bv8) & 0x3) | 0x8) as int
  }

  predicate IsPlaceholder(c: char) {
    c == 'x' || c == 'y'
  }

  /** The number of characters of `t` that `/[xy]/g` matches, so the number of draws. */
  function Placeholders(t: string): nat {
    multiset(t)['x'] + multiset(t)['y']
  }

  /** `t.replace(/[xy]/g, c => ...)`: each match, left to right, is replaced by the digit its
      draw gives; every other character is copied. */
  function Fill(t: string, draws: seq<Nibble>): (r: string)
    requires |draws| == Placeholders(t)
    ensures |r| == |t|
  {
    if t == [] then []
    else
      assert t == [t[0]] + t[1..];
      if t[0] == 'x' then [HexDigit(draws[0])] + Fill(t[1..], draws[1..])
      else if t[0] == 'y' then [HexDigit(Variant(draws[0]))] + Fill(t[1..], draws[1..])
      else [t[0]] + Fill(t[1..], draws)
  }

  predicate AllX(t: string) {
    forall i :: 0 <= i < |t| ==> t[i] == 'x'
  }

  /** The digits of a run of draws, each by itself. */
  function HexString(ds: seq<Nibble>): (r: string)
    ensures |r| == |ds| && forall i :: 0 <= i < |ds| ==> r[i] == HexDigit(ds[i])
  {
    seq(|ds|, i requires 0 <= i < |ds| => HexDigit(ds[i]))
  }

  lemma PlaceholdersAppend(s: string, t: string)
    ensures Placeholders(s + t) == Placeholders(s) + Placeholders(t)
  {
    assert multiset(s + t) == multiset(s) + multiset(t);
  }

  lemma HexStringCons(ds: seq<Nibble>)
    requires ds != []
    ensures HexString(ds) == [HexDigit(ds[0])] + HexString(ds[1..])
  {
  }

  /** A run of `x`s consumes one draw per character and spells out their digits. */
  lemma {:induction false} FillRun(xs: string, t: string, draws: seq<Nibble>)
    requires AllX(xs) && |draws| == |xs| + Placeholders(t)
    ensures Placeholders(xs + t) == |xs| + Placeholders(t)
    ensures Fill(xs + t, draws) == HexString(draws[..|xs|]) + Fill(t, draws[|xs|..])
  {
    PlaceholdersRun(xs);
    PlaceholdersAppend(xs, t);
    if xs == [] {
      assert xs + t == t;
    } else {
      var rest := xs[1..] + t;
      assert (xs + t)[0] == 'x' && (xs + t)[1..] == rest;
      FillRun(xs[1..], t, draws[1..]);
      assert Fill(xs + t, draws) == [HexDigit(draws[0])] + Fill(rest, draws[1..]);
      assert draws[1..][|xs| - 1..] == draws[|xs|..];
      var ds := draws[..|xs|];
      assert ds[1..] == draws[1..][..|xs| - 1];
      HexStringCons(ds);
    }
  }

  /** A character other than `x` and `y` is copied and consumes no draw. */
  lemma FillLiteral(c: char, t: string, draws: seq<Nibble>)
    requires !IsPlaceholder(c) && |draws| == Placeholders(t)
    ensures Placeholders([c] + t) == Placeholders(t)
    ensures Fill([c] + t, draws) == [c] + Fill(t, draws)
  {
    assert ([c] + t)[0] == c && ([c] + t)[1..] == t;
  }

  lemma FillVariant(t: string, draws: seq<Nibble>)
    requires |draws| == 1 + Placeholders(t)
    ensures Placeholders("y" + t) == 1 + Placeholders(t)
    ensures Fill("y" + t, draws) == [HexDigit(Variant(draws[0]))] + Fill(t, draws[1..])
  {
    assert ("y" + t)[0] == 'y' && ("y" + t)[1..] == t;
  }

  lemma {:induction false} PlaceholdersRun(xs: string)
    requires AllX(xs)
    ensures Placeholders(xs) == |xs|
  {
    if xs != [] {
      assert xs == [xs[0]] + xs[1..];
      PlaceholdersRun(xs[1..]);
    }
  }

  /** The character the template holds at position `i`. */
  function TemplateChar(i: int): char {
    if i == 8 || i == 13 || i == 18 || i == 23 then '-'
    else if i == 14 then '4'
    else if i == 19 then 'y'
    else 'x'
  }

  ghost predicate HasTemplateShape(tpl: string) {
    |tpl| == 36 && forall i :: 0 <= i < 36 ==> tpl[i] == TemplateChar(i)
  }

  lemma TemplateShape()
    ensures HasTemplateShape(Template)
  {
  }

  /** A run of `x`s then a literal `c`: the run's digits, `c`, then the fill of the rest. */
  lemma SegmentFill(xs: string, c: char, t: string, draws: seq<Nibble>)
    requires AllX(xs) && !IsPlaceholder(c) && |draws| == |xs| + Placeholders(t)
    ensures Placeholders(xs + ([c] + t)) == |xs| + Placeholders(t)
    ensures Fill(xs + ([c] + t), draws) == HexString(draws[..|xs|]) + ([c] + Fill(t, draws[|xs|..]))
  {
    FillLiteral(c, t, draws[|xs|..]);
    FillRun(xs, [c] + t, draws);
  }

  /** Reading `head`, `c` and `tail` back out of `head + ([c] + tail)`. */
  lemma SplitAfter(id: string, head: string, c: char, tail: string)
    requires id == head + ([c] + tail)
    ensures id[..|head|] == head && id[|head|] == c && id[|head| + 1..] == tail
  {
  }

  /** A run of `x`s and then a character other than `x` and `y` count one placeholder per `x`. */
  lemma SegmentCount(xs: string, c: char, t: string)
    requires AllX(xs) && !IsPlaceholder(c)
    ensures Placeholders(xs + ([c] + t)) == |xs| + Placeholders(t)
  {
    PlaceholdersRun(xs);
    PlaceholdersAppend(xs, [c] + t);
    PlaceholdersAppend([c], t);
  }

  /** The fill of `u`, where `u` starts with `n` `x`s followed by a character other than `x`
      and `y`: the first `n` draws spelt out, that character, then the fill of the rest. */
  lemma SegmentFront(u: string, n: nat, draws: seq<Nibble>)
    requires n < |u| && AllX(u[..n]) && !IsPlaceholder(u[n]) && |draws| == Placeholders(u)
    ensures |draws| == n + Placeholders(u[n + 1..])
    ensures Fill(u, draws) == HexString(draws[..n]) + ([u[n]] + Fill(u[n + 1..], draws[n..]))
  {
    var xs, c, t := u[..n], u[n], u[n + 1..];
    assert u == xs + ([c] + t) by {
      assert u[n..] == [c] + t;
    }
    SegmentCount(xs, c, t);
    SegmentFill(xs, c, t, draws);
  }

  /** `SegmentFront` applied to `tpl[a..]`. */
  lemma SegmentSuffix(tpl: string, a: nat, n: nat, draws: seq<Nibble>)
    requires a + n < |tpl| && AllX(tpl[a..a + n]) && !IsPlaceholder(tpl[a + n])
    requires |draws| == Placeholders(tpl[a..])
    ensures |draws| == n + Placeholders(tpl[a + n + 1..])
    ensures Fill(tpl[a..], draws) == HexString(draws[..n]) + ([tpl[a + n]] + Fill(tpl[a + n + 1..], draws[n..]))
  {
    var u := tpl[a..];
    assert u[..n] == tpl[a..a + n] && u[n] == tpl[a + n] && u[n + 1..] == tpl[a + n + 1..];
    SegmentFront(u, n, draws);
  }

  /** `SegmentSuffix` read from position `off` of a longer string `id`, with the draws from
      position `base` of a longer run. */
  lemma SegmentLayout(id: string, off: nat, tpl: string, a: nat, n: nat, draws: seq<Nibble>, base: nat)
    requires a + n < |tpl| && AllX(tpl[a..a + n]) && !IsPlaceholder(tpl[a + n])
    requires base <= |draws| && |draws| - base == Placeholders(tpl[a..])
    requires off <= |id| && id[off..] == Fill(tpl[a..], draws[base..])
    ensures |draws| == base + n + Placeholders(tpl[a + n + 1..])
    ensures id[off..off + n] == HexString(draws[base..base + n]) && id[off + n] == tpl[a + n]
    ensures id[off + n + 1..] == Fill(tpl[a + n + 1..], draws[base + n..])
  {
    var d := draws[base..];
    SegmentSuffix(tpl, a, n, d);
    assert d[..n] == draws[base..base + n] && d[n..] == draws[base + n..];
    var r := id[off..];
    assert id[off..off + n] == r[..n];
    assert id[off + n + 1..] == r[n + 1..];
  }

  /** Where `id[off..]` is the fill of `tpl[a..]` and `tpl[a]` is `y`: the variant digit of the
      draw at `base`, then the fill of the rest. */
  lemma VariantLayout(id: string, off: nat, tpl: string, a: nat, draws: seq<Nibble>, base: nat)
    requires a < |tpl| && tpl[a] == 'y'
    requires base <= |draws| && |draws| - base == Placeholders(tpl[a..])
    requires off <= |id| && id[off..] == Fill(tpl[a..], draws[base..])
    ensures |draws| == base + 1 + Placeholders(tpl[a + 1..])
    ensures id[off] == HexDigit(Variant(draws[base]))
    ensures id[off + 1..] == Fill(tpl[a + 1..], draws[base + 1..])
  {
    var d := draws[base..];
    assert tpl[a..] == "y" + tpl[a + 1..];
    FillVariant(tpl[a + 1..], d);
    assert d[1..] == draws[base + 1..];
    assert id[off + 1..] == id[off..][1..];
  }

  /** Where `id[off..]` is the fill of `tpl[a..]` and that is a run of `x`s: their digits. */
  lemma RunLayout(id: string, off: nat, tpl: string, a: nat, draws: seq<Nibble>, base: nat)
    requires a <= |tpl| && AllX(tpl[a..])
    requires base <= |draws| && |draws| - base == Placeholders(tpl[a..])
    requires off <= |id| && id[off..] == Fill(tpl[a..], draws[base..])
    ensures |draws| == base + |tpl| - a
    ensures id[off..] == HexString(draws[base..])
  {
    var xs, d := tpl[a..], draws[base..];
    assert xs + [] == xs;
    PlaceholdersRun(xs);
    FillRun(xs, [], d);
    assert d[..|xs|] == d;
  }

  /** The runs of `x`s and the literals of a string of the template's shape. */
  lemma ShapeSegments(tpl: string)
    requires HasTemplateShape(tpl)
    ensures tpl[0..] == tpl && AllX(tpl[0..8]) && tpl[8] == '-'
    ensures AllX(tpl[9..13]) && tpl[13] == '-' && tpl[14] == '4'
    ensures AllX(tpl[15..18]) && tpl[18] == '-' && tpl[19] == 'y'
    ensures AllX(tpl[20..23]) && tpl[23] == '-' && AllX(tpl[24..])
  {
    assert forall j :: 0 <= j < 8 ==> tpl[0..8][j] == tpl[j];
    assert forall j :: 0 <= j < 4 ==> tpl[9..13][j] == tpl[9 + j];
    assert forall j :: 0 <= j < 3 ==> tpl[15..18][j] == tpl[15 + j];
    assert forall j :: 0 <= j < 3 ==> tpl[20..23][j] == tpl[20 + j];
    assert forall j :: 0 <= j < 12 ==> tpl[24..][j] == tpl[24 + j];
  }

  /** The first half of the fill: up to and including the `4`. */
  lemma FrontLayout(id: string, tpl: string, draws: seq<Nibble>)
    requires |tpl| == 36 && tpl[0..] == tpl && AllX(tpl[0..8]) && tpl[8] == '-'
    requires AllX(tpl[9..13]) && tpl[13] == '-' && tpl[14] == '4'
    requires |draws| == Placeholders(tpl) && id == Fill(tpl, draws)
    ensures |draws| == 12 + Placeholders(tpl[15..])
    ensures id[..8] == HexString(draws[..8]) && id[8] == '-'
    ensures id[9..13] == HexString(draws[8..12]) && id[13] == '-' && id[14] == '4'
    ensures id[15..] == Fill(tpl[15..], draws[12..])
  {
    HeadLayout(id, tpl, draws);
    MidLayout(id, tpl, draws);
  }

  /** The first eight digits and the hyphen after them. */
  lemma HeadLayout(id: string, tpl: string, draws: seq<Nibble>)
    requires |tpl| == 36 && tpl[0..] == tpl && AllX(tpl[0..8]) && tpl[8] == '-'
    requires |draws| == Placeholders(tpl) && id == Fill(tpl, draws)
    ensures |draws| == 8 + Placeholders(tpl[9..])
    ensures id[..8] == HexString(draws[..8]) && id[8] == '-'
    ensures id[9..] == Fill(tpl[9..], draws[8..])
  {
    assert tpl[..8] == tpl[0..8];
    SegmentFront(tpl, 8, draws);
    SplitAfter(id, HexString(draws[..8]), tpl[8], Fill(tpl[9..], draws[8..]));
  }

  /** The four digits after the first hyphen, the second hyphen and the `4`. */
  lemma MidLayout(id: string, tpl: string, draws: seq<Nibble>)
    requires |tpl| == 36 && |id| == 36 && AllX(tpl[9..13]) && tpl[13] == '-' && tpl[14] == '4'
    requires |draws| == 8 + Placeholders(tpl[9..]) && id[9..] == Fill(tpl[9..], draws[8..])
    ensures |draws| == 12 + Placeholders(tpl[15..])
    ensures id[9..13] == HexString(draws[8..12]) && id[13] == '-' && id[14] == '4'
    ensures id[15..] == Fill(tpl[15..], draws[12..])
  {
    SegmentLayout(id, 9, tpl, 9, 4, draws, 8);
    SegmentLayout(id, 14, tpl, 14, 0, draws, 12);
  }

  /** The second half of the fill: from the digits after the `4` to the end. */
  lemma BackLayout(id: string, tpl: string, draws: seq<Nibble>)
    requires |tpl| == 36 && |id| == 36 && AllX(tpl[15..18]) && tpl[18] == '-' && tpl[19] == 'y'
    requires AllX(tpl[20..23]) && tpl[23] == '-' && AllX(tpl[24..])
    requires |draws| == 12 + Placeholders(tpl[15..]) && id[15..] == Fill(tpl[15..], draws[12..])
    ensures |draws| == 31
    ensures id[15..18] == HexString(draws[12..15]) && id[18] == '-'
    ensures id[19] == HexDigit(Variant(draws[15]))
    ensures id[20..23] == HexString(draws[16..19]) && id[23] == '-'
    ensures id[24..] == HexString(draws[19..])
  {
    SegmentLayout(id, 15, tpl, 15, 3, draws, 12);
    VariantLayout(id, 19, tpl, 19, draws, 15);
    SegmentLayout(id, 20, tpl, 20, 3, draws, 16);
    RunLayout(id, 24, tpl, 24, draws, 19);
  }

  /** A string of the template's shape has 31 placeholders: filling it with any draws of the
      right number (zeros, say) consumes 31 of them. */
  lemma ShapePlaceholders(tpl: string)
    requires HasTemplateShape(tpl)
    ensures Placeholders(tpl) == 31
  {
    ShapeSegments(tpl);
    var zeros: seq<Nibble> := seq(Placeholders(tpl), _ => 0);
    var id := Fill(tpl, zeros);
    FrontLayout(id, tpl, zeros);
    BackLayout(id, tpl, zeros);
  }

  /** Everything the layout of the fill says about `id`, as one predicate. */
  ghost predicate SpellsOut(id: string, draws: seq<Nibble>) {
    && |id| == 36 && |draws| == 31
    && id[..8] == HexString(draws[..8]) && id[8] == '-'
    && id[9..13] == HexString(draws[8..12]) && id[13] == '-' && id[14] == '4'
    && id[15..18] == HexString(draws[12..15]) && id[18] == '-'
    && id[19] == HexDigit(Variant(draws[15]))
    && id[20..23] == HexString(draws[16..19]) && id[23] == '-'
    && id[24..] == HexString(draws[19..])
  }

  /** The template has 31 placeholders, and filling it gives eight digits, a hyphen, four digits,
      `-4`, three digits, a hyphen, the variant digit, three digits, a hyphen and twelve digits. */
  lemma TemplateLayout(draws: seq<Nibble>)
    requires |draws| == 31
    ensures Placeholders(Template) == 31 && SpellsOut(Fill(Template, draws), draws)
  {
    TemplateShape();
    ShapePlaceholders(Template);
    ShapeSegments(Template);
    var id := Fill(Template, draws);
    FrontLayout(id, Template, draws);
    BackLayout(id, Template, draws);
  }

  /** `generateId()`: the template with each placeholder replaced from its draw. */
  function GenerateId(draws: seq<Nibble>): (id: string)
    requires |draws| == 31
    ensures SpellsOut(id, draws) && IsUuidV4(id)
  {
    TemplateLayout(draws);
    var id := Fill(Template, draws);
    SpelledOutIsUuid(id, draws);
    id
  }

  /** The characters a template character admits at its position. */
  predicate Conforms(p: char, c: char) {
    if p == 'x' then IsHexDigit(c)
    else if p == 'y' then c in "89ab"
    else c == p
  }

  /** The RFC 4122 version-4 textual form that the template describes: lowercase hexadecimal
      digits, hyphens at 8, 13, 18 and 23, version digit `4` and a variant digit in `8`..`b`. */
  predicate IsUuidV4(id: string) {
    |id| == 36 && forall i :: 0 <= i < 36 ==> Conforms(TemplateChar(i), id[i])
  }

  lemma SpelledOutIsUuid(id: string, draws: seq<Nibble>)
    requires SpellsOut(id, draws)
    ensures IsUuidV4(id)
  {
    forall i | 0 <= i < 36
      ensures Conforms(TemplateChar(i), id[i])
    {
      if i < 8 {
        assert id[i] == id[..8][i];
      } else if 8 < i < 13 {
        assert id[i] == id[9..13][i - 9];
      } else if 14 < i < 18 {
        assert id[i] == id[15..18][i - 15];
      } else if 19 < i < 23 {
        assert id[i] == id[20..23][i - 20];
      } else if 23 < i {
        assert id[i] == id[24..][i - 24];
      }
    }
  }

  /** The draws a run of hexadecimal digits stands for. */
  function HexValues(s: string): (ds: seq<Nibble>)
    requires forall i :: 0 <= i < |s| ==> IsHexDigit(s[i])
    ensures HexString(ds) == s
  {
    seq(|s|, i requires 0 <= i < |s| => HexValue(s[i]))
  }

  lemma HexValuesOfString(ds: seq<Nibble>)
    ensures HexValues(HexString(ds)) == ds
  {
    var s := HexString(ds);
    assert forall i :: 0 <= i < |ds| ==> HexValue(s[i]) == ds[i] by {
      forall i | 0 <= i < |ds| ensures HexValue(s[i]) == ds[i] {
        HexValueOfDigit(ds[i]);
      }
    }
  }

  /** The draws that `GenerateId` turns into `id`, reading the variant digit back as its own
      value (which is one of the draws that gives it). */
  function ParseId(id: string): (draws: seq<Nibble>)
    requires IsUuidV4(id)
    ensures |draws| == 31
  {
    assert forall i :: 0 <= i < 8 ==> id[..8][i] == id[i];
    assert forall i :: 0 <= i < 4 ==> id[9..13][i] == id[9 + i];
    assert forall i :: 0 <= i < 3 ==> id[15..18][i] == id[15 + i];
    assert forall i :: 0 <= i < 3 ==> id[20..23][i] == id[20 + i];
    assert forall i :: 0 <= i < 12 ==> id[24..][i] == id[24 + i];
    assert Conforms(TemplateChar(19), id[19]);
    HexValues(id[..8]) + HexValues(id[9..13]) + HexValues(id[15..18]) + [HexValue(id[19])]
      + HexValues(id[20..23]) + HexValues(id[24..])
  }

  /** Where each part lands in the 31 draws. */
  lemma DrawParts(p1: seq<Nibble>, p2: seq<Nibble>, p3: seq<Nibble>, v: Nibble, p5: seq<Nibble>, p6: seq<Nibble>)
    requires |p1| == 8 && |p2| == 4 && |p3| == 3 && |p5| == 3 && |p6| == 12
    ensures var d := p1 + p2 + p3 + [v] + p5 + p6;
      d[..8] == p1 && d[8..12] == p2 && d[12..15] == p3 && d[15] == v && d[16..19] == p5 && d[19..] == p6
  {
  }

  /** The draws are read back digit by digit: `ParseId` inverts the layout. */
  lemma ParseSpellsOut(id: string)
    requires IsUuidV4(id)
    ensures SpellsOut(id, ParseId(id)) && 8 <= ParseId(id)[15] < 12
  {
    var d := ParseId(id);
    var p1, p2, p3 := HexValues(id[..8]), HexValues(id[9..13]), HexValues(id[15..18]);
    var v := HexValue(id[19]);
    var p5, p6 := HexValues(id[20..23]), HexValues(id[24..]);
    assert d == p1 + p2 + p3 + [v] + p5 + p6;
    DrawParts(p1, p2, p3, v, p5, p6);
    assert Conforms(TemplateChar(19), id[19]);
    assert Variant(v) == v;
    assert Conforms(TemplateChar(8), id[8]) && Conforms(TemplateChar(13), id[13]);
    assert Conforms(TemplateChar(14), id[14]) && Conforms(TemplateChar(18), id[18]);
    assert Conforms(TemplateChar(23), id[23]);
  }

  /** Two strings that spell out the same draws are the same string. */
  lemma SpellsOutUnique(id1: string, id2: string, draws: seq<Nibble>)
    requires SpellsOut(id1, draws) && SpellsOut(id2, draws)
    ensures id1 == id2
  {
    forall i | 0 <= i < 36
      ensures id1[i] == id2[i]
    {
      if i < 8 {
        assert id1[i] == id1[..8][i] && id2[i] == id2[..8][i];
      } else if 8 < i < 13 {
        assert id1[i] == id1[9..13][i - 9] && id2[i] == id2[9..13][i - 9];
      } else if 14 < i < 18 {
        assert id1[i] == id1[15..18][i - 15] && id2[i] == id2[15..18][i - 15];
      } else if 19 < i < 23 {
        assert id1[i] == id1[20..23][i - 20] && id2[i] == id2[20..23][i - 20];
      } else if 23 < i {
        assert id1[i] == id1[24..][i - 24] && id2[i] == id2[24..][i - 24];
      }
    }
  }

  /** What one string tells about the draws that spell it out: all of them except the variant
      draw, of which only the two low bits show. */
  lemma SpellsOutDraws(id: string, d1: seq<Nibble>, d2: seq<Nibble>)
    requires SpellsOut(id, d1) && SpellsOut(id, d2)
    ensures d1[..15] == d2[..15] && d1[16..] == d2[16..] && Variant(d1[15]) == Variant(d2[15])
  {
    HexValuesOfString(d1[..8]);
    HexValuesOfString(d2[..8]);
    HexValuesOfString(d1[8..12]);
    HexValuesOfString(d2[8..12]);
    HexValuesOfString(d1[12..15]);
    HexValuesOfString(d2[12..15]);
    HexValuesOfString(d1[16..19]);
    HexValuesOfString(d2[16..19]);
    HexValuesOfString(d1[19..]);
    HexValuesOfString(d2[19..]);
    HexValueOfDigit(Variant(d1[15]));
    HexValueOfDigit(Variant(d2[15]));
    assert d1[..15] == d1[..8] + d1[8..12] + d1[12..15];
    assert d2[..15] == d2[..8] + d2[8..12] + d2[12..15];
    assert d1[16..] == d1[16..19] + d1[19..];
    assert d2[16..] == d2[16..19] + d2[19..];
  }

  /** Every identifier of the generated form is generated, from the draws `ParseId` reads. */
  lemma IdRoundTrip(id: string)
    requires IsUuidV4(id)
    ensures GenerateId(ParseId(id)) == id
  {
    var d := ParseId(id);
    ParseSpellsOut(id);
    SpellsOutUnique(GenerateId(d), id, d);
  }

  /** Parsing a generated identifier gives back the draws, with the variant draw reduced to the
      digit it produced. */
  lemma DrawsRecovered(draws: seq<Nibble>)
    requires |draws| == 31
    ensures ParseId(GenerateId(draws)) == draws[..15] + [Variant(draws[15])] + draws[16..]
  {
    var id := GenerateId(draws);
    var d := ParseId(id);
    ParseSpellsOut(id);
    SpellsOutDraws(id, d, draws);
    assert Variant(d[15]) == d[15];
    assert d == d[..15] + [d[15]] + d[16..];
  }

  /** Draws that agree except in the two high bits of the variant draw give the same identifier. */
  lemma SameIdFromAgreeingDraws(a: seq<Nibble>, b: seq<Nibble>)
    requires |a| == 31 && |b| == 31
    requires a[..15] == b[..15] && a[16..] == b[16..] && a[15] % 4 == b[15] % 4
    ensures GenerateId(a) == GenerateId(b)
  {
    var ia := GenerateId(a);
    assert a[..8] == a[..15][..8] && b[..8] == b[..15][..8];
    assert a[8..12] == a[..15][8..12] && b[8..12] == b[..15][8..12];
    assert a[12..15] == a[..15][12..] && b[12..15] == b[..15][12..];
    assert a[16..19] == a[16..][..3] && b[16..19] == b[16..][..3];
    assert a[19..] == a[16..][3..] && b[19..] == b[16..][3..];
    assert SpellsOut(ia, b);
    SpellsOutUnique(ia, GenerateId(b), b);
  }

  /** Two runs of draws give the same identifier exactly when they agree everywhere except in
      the two high bits of the variant draw. */
  lemma GenerateIdInjective(a: seq<Nibble>, b: seq<Nibble>)
    requires |a| == 31 && |b| == 31
    ensures GenerateId(a) == GenerateId(b)
        <==> a[..15] == b[..15] && a[16..] == b[16..] && a[15] % 4 == b[15] % 4
  {
    if GenerateId(a) == GenerateId(b) {
      SpellsOutDraws(GenerateId(a), a, b);
    }
    if a[..15] == b[..15] && a[16..] == b[16..] && a[15] % 4 == b[15] % 4 {
      SameIdFromAgreeingDraws(a, b);
    }
  }
}
