/** `SAM2Service` of backend/app/services/sam2.py: summarising each mask the
    generator returns (`_process_mask`) and assembling the response of
    `auto_segment` (segments by confidence, the colour composite, the colour map). */
module Sam2 {
  import opened Wrappers
  import opened Images
  import opened Text

  const NotInitialized: string := "Model is not initialized. Please load the model first."

  // ------------------------------------------------------------ np.where

  /** Pixel (y, x) lies in the mask and is set. */
  predicate Covers(m: seq<seq<bool>>, y: int, x: int) {
    0 <= y < |m| && 0 <= x < |m[y]| && m[y][x]
  }

  /** The coordinates of the set pixels of one row y, left to right. */
  function RowWhere(row: seq<bool>, y: int): (c: seq<(int, int)>)
    ensures forall p :: p in c <==> p.0 == y && 0 <= p.1 < |row| && row[p.1]
  {
    if |row| == 0 then []
    else RowWhere(row[..|row| - 1], y) + (if row[|row| - 1] then [(y, |row| - 1)] else [])
  }

  /** `np.where(mask)` as (y, x) pairs in row-major order. */
  function Where(m: seq<seq<bool>>): (c: seq<(int, int)>)
    ensures forall p :: p in c <==> Covers(m, p.0, p.1)
  {
    if |m| == 0 then []
    else
      var c := Where(m[..|m| - 1]) + RowWhere(m[|m| - 1], |m| - 1);
      assert forall p: (int, int) :: Covers(m, p.0, p.1) <==> Covers(m[..|m| - 1], p.0, p.1) || (p.0 == |m| - 1 && Covers(m, p.0, p.1));
      c
  }

  /** The set pixels, as a set. */
  ghost function SetPixels(m: seq<seq<bool>>): set<(int, int)> {
    set y, x | 0 <= y < |m| && 0 <= x < |m[y]| && m[y][x] :: (y, x)
  }

  ghost function ToSet<T>(s: seq<T>): set<T> {
    set p | p in s
  }

  lemma ToSetSnoc<T>(s: seq<T>, e: T)
    ensures ToSet(s + [e]) == ToSet(s) + {e}
  {
  }

  lemma {:induction false} RowWhereCard(row: seq<bool>, y: int)
    ensures |ToSet(RowWhere(row, y))| == |RowWhere(row, y)|
    decreases |row|
  {
    if |row| > 0 {
      var pre := RowWhere(row[..|row| - 1], y);
      RowWhereCard(row[..|row| - 1], y);
      if row[|row| - 1] {
        ToSetSnoc(pre, (y, |row| - 1));
        assert (y, |row| - 1) !in ToSet(pre);
      } else {
        assert RowWhere(row, y) == pre;
      }
    }
  }

  /** Where lists each set pixel once. */
  lemma {:induction false} WhereCard(m: seq<seq<bool>>)
    ensures |ToSet(Where(m))| == |Where(m)|
    decreases |m|
  {
    if |m| > 0 {
      var pre := Where(m[..|m| - 1]);
      var row := RowWhere(m[|m| - 1], |m| - 1);
      WhereCard(m[..|m| - 1]);
      RowWhereCard(m[|m| - 1], |m| - 1);
      assert ToSet(pre + row) == ToSet(pre) + ToSet(row);
      assert ToSet(pre) * ToSet(row) == {} by {
        forall p | p in ToSet(pre) ensures p !in ToSet(row) {
          assert p.0 < |m| - 1;
        }
      }
    }
  }

  /** np.sum(mask) counts the set pixels. */
  lemma WhereCountsSetPixels(m: seq<seq<bool>>)
    ensures |Where(m)| == |SetPixels(m)|
  {
    WhereCard(m);
    assert ToSet(Where(m)) == SetPixels(m) by {
      forall p ensures p in ToSet(Where(m)) <==> p in SetPixels(m) {
        if p in SetPixels(m) {
          assert Covers(m, p.0, p.1);
        }
      }
    }
  }

  // ------------------------------------------------------------ min, max

  function MinOf(s: seq<int>): (r: int)
    requires |s| > 0
    ensures r in s && forall i :: 0 <= i < |s| ==> r <= s[i]
  {
    if |s| == 1 then s[0]
    else var m := MinOf(s[..|s| - 1]); if s[|s| - 1] < m then s[|s| - 1] else m
  }

  function MaxOf(s: seq<int>): (r: int)
    requires |s| > 0
    ensures r in s && forall i :: 0 <= i < |s| ==> s[i] <= r
  {
    if |s| == 1 then s[0]
    else var m := MaxOf(s[..|s| - 1]); if s[|s| - 1] > m then s[|s| - 1] else m
  }

  /** `coords[0]`: the row of every set pixel. */
  function Rows(c: seq<(int, int)>): (r: seq<int>)
    ensures |r| == |c| && forall i :: 0 <= i < |c| ==> r[i] == c[i].0
  {
    seq(|c|, i requires 0 <= i < |c| => c[i].0)
  }

  /** `coords[1]`: the column of every set pixel. */
  function Cols(c: seq<(int, int)>): (r: seq<int>)
    ensures |r| == |c| && forall i :: 0 <= i < |c| ==> r[i] == c[i].1
  {
    seq(|c|, i requires 0 <= i < |c| => c[i].1)
  }

  // -------------------------------------------------------- _process_mask

  /** `[x_min, y_min, x_max, y_max]`, corners inclusive. */
  datatype BBox = BBox(xMin: int, yMin: int, xMax: int, yMax: int)

  /** The dictionary `_process_mask` returns; the PNG is kept as its 0/255 raster. */
  datatype SegmentInfo = SegmentInfo(segmentId: int, bbox: BBox, confidence: int, mask: Raster<int>, area: nat)

  /** The box from the coordinates of the set pixels, or [0, 0, 0, 0] when there are none. */
  function BoxOf(c: seq<(int, int)>): (b: BBox)
    ensures |c| == 0 ==> b == BBox(0, 0, 0, 0)
    ensures forall i :: 0 <= i < |c| ==> b.xMin <= c[i].1 <= b.xMax && b.yMin <= c[i].0 <= b.yMax
    ensures |c| > 0 ==> b.xMin in Cols(c) && b.xMax in Cols(c) && b.yMin in Rows(c) && b.yMax in Rows(c)
  {
    if |c| > 0 then BBox(MinOf(Cols(c)), MinOf(Rows(c)), MaxOf(Cols(c)), MaxOf(Rows(c)))
    else BBox(0, 0, 0, 0)
  }

  /** b contains every set pixel of m and each of its four edges passes through one. */
  ghost predicate TightBox(m: seq<seq<bool>>, b: BBox) {
    && (forall y, x :: Covers(m, y, x) ==> b.xMin <= x <= b.xMax && b.yMin <= y <= b.yMax)
    && (exists y, x :: Covers(m, y, x) && x == b.xMin)
    && (exists y, x :: Covers(m, y, x) && y == b.yMin)
    && (exists y, x :: Covers(m, y, x) && x == b.xMax)
    && (exists y, x :: Covers(m, y, x) && y == b.yMax)
  }

  lemma BoxOfWhere(m: seq<seq<bool>>)
    ensures |Where(m)| > 0 ==> TightBox(m, BoxOf(Where(m)))
  {
    var c := Where(m);
    if |c| > 0 {
      var b := BoxOf(c);
      forall y, x | Covers(m, y, x)
        ensures b.xMin <= x <= b.xMax && b.yMin <= y <= b.yMax
      {
        assert (y, x) in c;
        var i :| 0 <= i < |c| && c[i] == (y, x);
        assert Cols(c)[i] == x && Rows(c)[i] == y;
      }
      var i0 :| 0 <= i0 < |c| && Cols(c)[i0] == b.xMin;
      assert c[i0] in c;
      var i1 :| 0 <= i1 < |c| && Rows(c)[i1] == b.yMin;
      assert c[i1] in c;
      var i2 :| 0 <= i2 < |c| && Cols(c)[i2] == b.xMax;
      assert c[i2] in c;
      var i3 :| 0 <= i3 < |c| && Rows(c)[i3] == b.yMax;
      assert c[i3] in c;
    }
  }

  /** `(mask * 255).astype(np.uint8)`. */
  function MaskImage(m: Raster<bool>): (r: Raster<int>)
    requires m.Valid()
    ensures r.Valid() && r.Shape() == m.Shape()
    ensures forall y, x :: 0 <= y < m.h && 0 <= x < m.w ==> r.px[y][x] == (if m.px[y][x] then 255 else 0)
  {
    Raster(m.h, m.w, seq(m.h, y requires 0 <= y < m.h => seq(m.w, x requires 0 <= x < m.w => if m.px[y][x] then 255 else 0)))
  }

  /** `_process_mask`: the box over the set pixels (or [0, 0, 0, 0] for an empty
      mask), their number, and the 0/255 mask image. */
  function ProcessMask(mask: Raster<bool>, confidence: int, segmentId: int): (r: SegmentInfo)
    requires mask.Valid()
    ensures r.segmentId == segmentId && r.confidence == confidence
    ensures (exists y, x :: Covers(mask.px, y, x)) ==> TightBox(mask.px, r.bbox)
    ensures (forall y, x :: !Covers(mask.px, y, x)) ==> r.bbox == BBox(0, 0, 0, 0)
    ensures r.area == |SetPixels(mask.px)|
    ensures r.mask == MaskImage(mask)
  {
    var coords := Where(mask.px);
    BoxOfWhere(mask.px);
    WhereCountsSetPixels(mask.px);
    assert (exists y, x :: Covers(mask.px, y, x)) ==> |coords| > 0 by {
      if exists y, x :: Covers(mask.px, y, x) {
        var y, x :| Covers(mask.px, y, x);
        assert (y, x) in coords;
      }
    }
    assert |coords| > 0 ==> exists y, x :: Covers(mask.px, y, x) by {
      if |coords| > 0 {
        assert coords[0] in coords;
      }
    }
    SegmentInfo(segmentId, BoxOf(coords), confidence, MaskImage(mask), |coords|)
  }

  // ----------------------------------------------------------- colour key

  /** `str(color)` for an (r, g, b) tuple of ints: `"(r, g, b)"`. */
  function ColorKey(c: Rgb): string {
    "(" + NatToString(c.r) + ", " + NatToString(c.g) + ", " + NatToString(c.b) + ")"
  }


  /** Reads `", "` followed by a number. */
  function ParseSepNat(s: string): Option<(nat, string)> {
    if |s| >= 2 && s[0] == ',' && s[1] == ' ' then ParseNat(s[2..]) else None
  }

  /** Reads a colour key back into its colour. */
  function ParseColorKey(s: string): Option<Rgb> {
    if |s| == 0 || s[0] != '(' then None
    else
      match ParseNat(s[1..])
      case None => None
      case Some((r, s1)) =>
        match ParseSepNat(s1)
        case None => None
        case Some((g, s2)) =>
          match ParseSepNat(s2)
          case None => None
          case Some((b, s3)) =>
            if s3 == ")" && r < 256 && g < 256 && b < 256 then Some(Rgb(r, g, b)) else None
  }

  /** Reading back `", "` and a rendered number gives the number and leaves the rest. */
  lemma ParseSepNatOf(n: nat, rest: string)
    requires rest == [] || !IsDigit(rest[0])
    ensures ParseSepNat(", " + (NatToString(n) + rest)) == Some((n, rest))
  {
    var s := ", " + (NatToString(n) + rest);
    assert s[2..] == NatToString(n) + rest;
    ParseNatToString(n, rest);
  }

  /** Every colour key reads back as its colour. */
  lemma ParseColorKeyRoundTrip(c: Rgb)
    ensures ParseColorKey(ColorKey(c)) == Some(c)
  {
    var r, g, b := NatToString(c.r), NatToString(c.g), NatToString(c.b);
    var s3 := ")";
    var s2 := ", " + (b + s3);
    var s1 := ", " + (g + s2);
    var s := ColorKey(c);
    assert s == "(" + (r + s1);
    assert s[1..] == r + s1;
    ParseNatToString(c.r, s1);
    ParseSepNatOf(c.g, s2);
    ParseSepNatOf(c.b, s3);
  }

  /** Distinct colours have distinct keys, so the colour map's keys identify colours. */
  lemma ColorKeyInjective(c: Rgb, d: Rgb)
    ensures ColorKey(c) == ColorKey(d) <==> c == d
  {
    ParseColorKeyRoundTrip(c);
    ParseColorKeyRoundTrip(d);
  }

  // ---------------------------------------------------------- auto_segment

  /** One entry of the generator's output: the boolean segmentation and the
      optional scores (confidences in units of 1e-4, as after `round(..., 4)`). */
  datatype MaskData = MaskData(segmentation: Raster<bool>, predictedIou: Option<int>, stabilityScore: Option<int>)

  /** A segment of the response: `_process_mask`'s dictionary after `update`. */
  datatype Segment = Segment(info: SegmentInfo, stabilityScore: int, predictedIou: int)

  /** The value of `color_map[str(color)]`. */
  datatype ColorEntry = ColorEntry(segmentId: int, confidence: int)

  /** The response; `composite` is None for the empty string. */
  datatype SegmentResult = SegmentResult(segments: seq<Segment>, composite: Option<seq<seq<Rgb>>>, colorMap: map<string, ColorEntry>)

  /** `mask_data.get("predicted_iou", 0.0)`. */
  function ConfidenceOf(d: MaskData): int {
    d.predictedIou.GetOr(0)
  }

  /** Every generated mask has the image's shape. */
  predicate MasksFit(masks: seq<MaskData>, h: nat, w: nat) {
    forall i :: 0 <= i < |masks| ==> masks[i].segmentation.Valid() && masks[i].segmentation.Shape() == Size(h, w)
  }

  /** The segment built for mask i. */
  function SegmentOf(d: MaskData, i: int): Segment
    requires d.segmentation.Valid()
  {
    Segment(ProcessMask(d.segmentation, ConfidenceOf(d), i), d.stabilityScore.GetOr(0), d.predictedIou.GetOr(0))
  }

  /** The segments in generator order, before the sort. */
  function Processed(masks: seq<MaskData>): (s: seq<Segment>)
    requires forall i :: 0 <= i < |masks| ==> masks[i].segmentation.Valid()
    ensures |s| == |masks|
    ensures forall i :: 0 <= i < |masks| ==> s[i] == SegmentOf(masks[i], i)
  {
    seq(|masks|, i requires 0 <= i < |masks| => SegmentOf(masks[i], i))
  }

  /** The composite after painting masks in order onto a black raster. */
  function Composite(masks: seq<MaskData>, colors: seq<Rgb>, h: nat, w: nat): (g: seq<seq<Rgb>>)
    requires MasksFit(masks, h, w) && |colors| == |masks|
    ensures IsGrid(g, h, w)
  {
    if |masks| == 0 then Filled(h, w, Black)
    else
      var n := |masks| - 1;
      MaskedAssign(Composite(masks[..n], colors[..n], h, w), masks[n].segmentation.px, colors[n], h, w)
  }

  /** The colour map after inserting the masks' colours in order. */
  function ColorMapOf(masks: seq<MaskData>, colors: seq<Rgb>): map<string, ColorEntry>
    requires |colors| == |masks|
  {
    if |masks| == 0 then map[]
    else
      var n := |masks| - 1;
      ColorMapOf(masks[..n], colors[..n])[ColorKey(colors[n]) := ColorEntry(n, ConfidenceOf(masks[n]))]
  }

  // ------------------------------------------------------- stable sort

  function Key(s: Segment): int {
    s.info.confidence
  }

  function Id(s: Segment): int {
    s.info.segmentId
  }

  /** Every colour-map entry names one of the masks and carries that mask's confidence. */
  lemma {:induction false} ColorMapEntries(masks: seq<MaskData>, colors: seq<Rgb>)
    requires |colors| == |masks|
    ensures forall k :: k in ColorMapOf(masks, colors) ==>
              var e := ColorMapOf(masks, colors)[k];
              0 <= e.segmentId < |masks| && e.confidence == ConfidenceOf(masks[e.segmentId])
  {
    if |masks| > 0 {
      var n := |masks| - 1;
      ColorMapEntries(masks[..n], colors[..n]);
      var pm := ColorMapOf(masks[..n], colors[..n]);
      var cm := ColorMapOf(masks, colors);
      assert cm == pm[ColorKey(colors[n]) := ColorEntry(n, ConfidenceOf(masks[n]))];
      forall k | k in cm
        ensures 0 <= cm[k].segmentId < |masks| && cm[k].confidence == ConfidenceOf(masks[cm[k].segmentId])
      {
        if k != ColorKey(colors[n]) {
          var e := pm[k];
          assert 0 <= e.segmentId < n && e.confidence == ConfidenceOf(masks[..n][e.segmentId]);
          assert masks[..n][e.segmentId] == masks[e.segmentId];
        }
      }
    }
  }

  /** Places x after every segment whose confidence is at least x's. */
  function InsertByConfidence(x: Segment, s: seq<Segment>): (r: seq<Segment>)
    ensures |r| == |s| + 1
  {
    if |s| == 0 then [x]
    else if Key(s[0]) < Key(x) then [x] + s
    else [s[0]] + InsertByConfidence(x, s[1..])
  }

  /** `segments.sort(key=lambda x: x["confidence"], reverse=True)`: Python's sort
      is stable, also with reverse=True. */
  function SortByConfidence(s: seq<Segment>): (r: seq<Segment>)
    ensures |r| == |s|
  {
    if |s| == 0 then []
    else InsertByConfidence(s[|s| - 1], SortByConfidence(s[..|s| - 1]))
  }

  ghost predicate SortedDesc(s: seq<Segment>) {
    forall i, j :: 0 <= i < j < |s| ==> Key(s[i]) >= Key(s[j])
  }

  /** Segments of equal confidence appear in increasing id order. */
  ghost predicate TiesById(s: seq<Segment>) {
    forall i, j :: 0 <= i < j < |s| && Key(s[i]) == Key(s[j]) ==> Id(s[i]) < Id(s[j])
  }

  ghost predicate IdsIncreasing(s: seq<Segment>) {
    forall i, j :: 0 <= i < j < |s| ==> Id(s[i]) < Id(s[j])
  }

  lemma {:induction false} InsertByConfidencePerm(x: Segment, s: seq<Segment>)
    ensures multiset(InsertByConfidence(x, s)) == multiset(s) + multiset{x}
    decreases |s|
  {
    if |s| > 0 {
      assert s == [s[0]] + s[1..];
      InsertByConfidencePerm(x, s[1..]);
    }
  }

  /** Inserting keeps every confidence at most v when x's is. */
  lemma {:induction false} InsertAtMost(x: Segment, t: seq<Segment>, v: int)
    requires forall i :: 0 <= i < |t| ==> Key(t[i]) <= v
    requires Key(x) <= v
    ensures forall i :: 0 <= i < |InsertByConfidence(x, t)| ==> Key(InsertByConfidence(x, t)[i]) <= v
    decreases |t|
  {
    if |t| > 0 && Key(t[0]) >= Key(x) {
      InsertAtMost(x, t[1..], v);
    }
  }

  /** Inserting keeps every tie with a after a in id order when x's tie does. */
  lemma {:induction false} InsertTiesAfter(a: Segment, x: Segment, t: seq<Segment>)
    requires forall i :: 0 <= i < |t| && Key(t[i]) == Key(a) ==> Id(a) < Id(t[i])
    requires Key(x) == Key(a) ==> Id(a) < Id(x)
    ensures forall i :: 0 <= i < |InsertByConfidence(x, t)| && Key(InsertByConfidence(x, t)[i]) == Key(a) ==>
              Id(a) < Id(InsertByConfidence(x, t)[i])
    decreases |t|
  {
    if |t| > 0 && Key(t[0]) >= Key(x) {
      InsertTiesAfter(a, x, t[1..]);
    }
  }

  lemma {:induction false} InsertSorted(x: Segment, s: seq<Segment>)
    requires SortedDesc(s)
    ensures SortedDesc(InsertByConfidence(x, s))
    decreases |s|
  {
    if |s| > 0 {
      var r := InsertByConfidence(x, s);
      if Key(s[0]) < Key(x) {
        forall i, j | 0 <= i < j < |r| ensures Key(r[i]) >= Key(r[j]) {
          assert r[j] == s[j - 1];
          if i > 0 {
            assert r[i] == s[i - 1];
          }
        }
      } else {
        var t := InsertByConfidence(x, s[1..]);
        InsertSorted(x, s[1..]);
        InsertAtMost(x, s[1..], Key(s[0]));
        forall i, j | 0 <= i < j < |r| ensures Key(r[i]) >= Key(r[j]) {
          assert r[j] == t[j - 1];
          if i > 0 {
            assert r[i] == t[i - 1];
          }
        }
      }
    }
  }

  lemma {:induction false} InsertTies(x: Segment, s: seq<Segment>)
    requires SortedDesc(s) && TiesById(s)
    requires forall i :: 0 <= i < |s| ==> Id(s[i]) < Id(x)
    ensures TiesById(InsertByConfidence(x, s))
    decreases |s|
  {
    if |s| > 0 {
      var r := InsertByConfidence(x, s);
      if Key(s[0]) < Key(x) {
        forall i, j | 0 <= i < j < |r| && Key(r[i]) == Key(r[j]) ensures Id(r[i]) < Id(r[j]) {
          assert r[j] == s[j - 1];
          if i > 0 {
            assert r[i] == s[i - 1];
          }
        }
      } else {
        var t := InsertByConfidence(x, s[1..]);
        InsertTies(x, s[1..]);
        InsertTiesAfter(s[0], x, s[1..]);
        forall i, j | 0 <= i < j < |r| && Key(r[i]) == Key(r[j]) ensures Id(r[i]) < Id(r[j]) {
          assert r[j] == t[j - 1];
          if i > 0 {
            assert r[i] == t[i - 1];
          }
        }
      }
    }
  }

  /** The sorted segments are a permutation of the input with non-increasing
      confidence, and ties keep the input's order when the input's ids increase. */
  lemma {:induction false} SortByConfidenceCorrect(s: seq<Segment>)
    ensures multiset(SortByConfidence(s)) == multiset(s)
    ensures SortedDesc(SortByConfidence(s))
    ensures IdsIncreasing(s) ==> TiesById(SortByConfidence(s))
    decreases |s|
  {
    if |s| > 0 {
      var n := |s| - 1;
      var pre := s[..n];
      SortByConfidenceCorrect(pre);
      var sp := SortByConfidence(pre);
      InsertByConfidencePerm(s[n], sp);
      InsertSorted(s[n], sp);
      assert s == pre + [s[n]];
      if IdsIncreasing(s) {
        forall i | 0 <= i < |sp| ensures Id(sp[i]) < Id(s[n]) {
          assert sp[i] in multiset(pre);
          var k :| 0 <= k < |pre| && pre[k] == sp[i];
        }
        InsertTies(s[n], sp);
      }
    }
  }

  /** The unsorted segments carry their generator positions as ids. */
  lemma ProcessedIds(masks: seq<MaskData>)
    requires forall i :: 0 <= i < |masks| ==> masks[i].segmentation.Valid()
    ensures IdsIncreasing(Processed(masks))
    ensures forall i :: 0 <= i < |masks| ==> Id(Processed(masks)[i]) == i
  {
  }

  lemma MasksFitPrefix(masks: seq<MaskData>, h: nat, w: nat, i: nat)
    requires MasksFit(masks, h, w) && i <= |masks|
    ensures MasksFit(masks[..i], h, w)
  {
  }

  /** One more mask adds one segment, one painted layer and one colour-map entry. */
  lemma ProcessedStep(masks: seq<MaskData>, i: nat)
    requires forall j :: 0 <= j < |masks| ==> masks[j].segmentation.Valid()
    requires i < |masks|
    ensures Processed(masks[..i + 1]) == Processed(masks[..i]) + [SegmentOf(masks[i], i)]
  {
    var p := Processed(masks[..i + 1]);
    var q := Processed(masks[..i]) + [SegmentOf(masks[i], i)];
    assert |p| == |q|;
    forall j | 0 <= j <= i ensures p[j] == q[j] {
      assert masks[..i + 1][j] == masks[j];
      if j < i {
        assert masks[..i][j] == masks[j];
      }
    }
  }

  lemma CompositeStep(masks: seq<MaskData>, colors: seq<Rgb>, h: nat, w: nat, i: nat)
    requires MasksFit(masks, h, w) && |colors| == |masks| && i < |masks|
    ensures MasksFit(masks[..i], h, w) && MasksFit(masks[..i + 1], h, w)
    ensures Composite(masks[..i + 1], colors[..i + 1], h, w)
         == MaskedAssign(Composite(masks[..i], colors[..i], h, w), masks[i].segmentation.px, colors[i], h, w)
  {
    MasksFitPrefix(masks, h, w, i);
    MasksFitPrefix(masks, h, w, i + 1);
    assert masks[..i + 1][..i] == masks[..i] && colors[..i + 1][..i] == colors[..i];
  }

  lemma ColorMapStep(masks: seq<MaskData>, colors: seq<Rgb>, i: nat)
    requires |colors| == |masks| && i < |masks|
    ensures ColorMapOf(masks[..i + 1], colors[..i + 1])
         == ColorMapOf(masks[..i], colors[..i])[ColorKey(colors[i]) := ColorEntry(i, ConfidenceOf(masks[i]))]
  {
    assert masks[..i + 1][..i] == masks[..i] && colors[..i + 1][..i] == colors[..i];
  }

  /** `auto_segment` once the generator has run: one segment per mask with id i,
      mask i painted in colors[i] over the earlier ones, `color_map[str(colors[i])]`
      set to (i, confidence i), then the stable sort by descending confidence. */
  method AutoSegment(modelLoaded: bool, h: nat, w: nat, masks: seq<MaskData>, colors: seq<Rgb>) returns (r: Result<SegmentResult, Error>)
    requires |colors| == |masks|
    requires MasksFit(masks, h, w)
    ensures !modelLoaded ==> r == Err(RuntimeError(NotInitialized))
    ensures modelLoaded && |masks| == 0 ==> r == Ok(SegmentResult([], None, map[]))
    ensures modelLoaded && |masks| > 0 ==>
      r == Ok(SegmentResult(SortByConfidence(Processed(masks)), Some(Composite(masks, colors, h, w)), ColorMapOf(masks, colors)))
  {
    if !modelLoaded {
      return Err(RuntimeError(NotInitialized));
    }
    if |masks| == 0 {
      return Ok(SegmentResult([], None, map[]));
    }
    var segments: seq<Segment> := [];
    var colorMap: map<string, ColorEntry> := map[];
    var composite := new Rgb[h, w]((y, x) => Black);
    GridExt(Snapshot(composite), Filled(h, w, Black), h, w);
    MasksFitPrefix(masks, h, w, 0);
    assert Processed(masks[..0]) == [];
    for i := 0 to |masks|
      invariant MasksFit(masks[..i], h, w)
      invariant segments == Processed(masks[..i])
      invariant colorMap == ColorMapOf(masks[..i], colors[..i])
      invariant Snapshot(composite) == Composite(masks[..i], colors[..i], h, w)
    {
      ProcessedStep(masks, i);
      CompositeStep(masks, colors, h, w, i);
      ColorMapStep(masks, colors, i);
      var mask := masks[i].segmentation;
      var confidence := masks[i].predictedIou.GetOr(0);
      var segmentData := ProcessMask(mask, confidence, i);
      segments := segments + [Segment(segmentData, masks[i].stabilityScore.GetOr(0), masks[i].predictedIou.GetOr(0))];
      MaskedWrite(composite, mask.px, colors[i]);
      colorMap := colorMap[ColorKey(colors[i]) := ColorEntry(i, confidence)];
    }
    assert masks[..|masks|] == masks && colors[..|colors|] == colors;
    segments := SortByConfidence(segments);
    r := Ok(SegmentResult(segments, Some(Snapshot(composite)), colorMap));
  }

  // --------------------------------------------------- what they mean

  /** The last mask, in generator order, that covers (y, x); -1 when none does. */
  function LastCover(masks: seq<MaskData>, y: int, x: int): (k: int)
    ensures -1 <= k < |masks|
    ensures k >= 0 ==> Covers(masks[k].segmentation.px, y, x)
    ensures forall j :: k < j < |masks| ==> !Covers(masks[j].segmentation.px, y, x)
  {
    if |masks| == 0 then -1
    else if Covers(masks[|masks| - 1].segmentation.px, y, x) then |masks| - 1
    else LastCover(masks[..|masks| - 1], y, x)
  }

  /** Each composite pixel has the colour of the last mask that covers it, or black. */
  lemma {:induction false} CompositePixel(masks: seq<MaskData>, colors: seq<Rgb>, h: nat, w: nat, y: int, x: int)
    requires MasksFit(masks, h, w) && |colors| == |masks|
    requires 0 <= y < h && 0 <= x < w
    ensures var k := LastCover(masks, y, x);
            Composite(masks, colors, h, w)[y][x] == if k >= 0 then colors[k] else Black
    decreases |masks|
  {
    if |masks| > 0 {
      var n := |masks| - 1;
      assert MasksFit(masks[..n], h, w);
      CompositePixel(masks[..n], colors[..n], h, w, y, x);
      if !Covers(masks[n].segmentation.px, y, x) {
        assert LastCover(masks, y, x) == LastCover(masks[..n], y, x);
      }
    }
  }

  /** The colour map has one key per colour used. */
  lemma {:induction false} ColorMapKeys(masks: seq<MaskData>, colors: seq<Rgb>)
    requires |colors| == |masks|
    ensures forall k :: k in ColorMapOf(masks, colors) <==> exists i :: 0 <= i < |colors| && ColorKey(colors[i]) == k
    decreases |masks|
  {
    if |masks| > 0 {
      var n := |masks| - 1;
      ColorMapKeys(masks[..n], colors[..n]);
      var cm := ColorMapOf(masks, colors);
      var pm := ColorMapOf(masks[..n], colors[..n]);
      assert cm == pm[ColorKey(colors[n]) := ColorEntry(n, ConfidenceOf(masks[n]))];
      forall k | k in cm ensures exists i :: 0 <= i < |colors| && ColorKey(colors[i]) == k {
        if k == ColorKey(colors[n]) {
          assert 0 <= n < |colors| && ColorKey(colors[n]) == k;
        } else {
          assert k in pm;
          var i :| 0 <= i < n && ColorKey(colors[..n][i]) == k;
          assert 0 <= i < |colors| && ColorKey(colors[i]) == k;
        }
      }
      forall k, i | 0 <= i < |colors| && ColorKey(colors[i]) == k ensures k in cm {
        if i < n {
          assert ColorKey(colors[..n][i]) == k;
          assert k in pm;
        }
      }
    }
  }

  /** The entry for the key of colors[i] names the last index j with the same
      colour, and j's confidence. */
  ghost predicate LastOfColor(masks: seq<MaskData>, colors: seq<Rgb>, i: int, e: ColorEntry)
    requires |colors| == |masks| && 0 <= i < |colors|
  {
    var j := e.segmentId;
    && i <= j < |colors| && colors[j] == colors[i]
    && (forall l :: j < l < |colors| ==> colors[l] != colors[i])
    && e.confidence == ConfidenceOf(masks[j])
  }

  /** Later masks overwrite the entry of an earlier mask of the same colour. */
  lemma {:induction false} ColorMapLastWins(masks: seq<MaskData>, colors: seq<Rgb>, i: int)
    requires |colors| == |masks| && 0 <= i < |colors|
    ensures ColorKey(colors[i]) in ColorMapOf(masks, colors)
    ensures LastOfColor(masks, colors, i, ColorMapOf(masks, colors)[ColorKey(colors[i])])
    decreases |masks|
  {
    var n := |masks| - 1;
    ColorKeyInjective(colors[i], colors[n]);
    if colors[i] != colors[n] {
      ColorMapLastWins(masks[..n], colors[..n], i);
      var e := ColorMapOf(masks, colors)[ColorKey(colors[i])];
      assert e == ColorMapOf(masks[..n], colors[..n])[ColorKey(colors[i])];
      assert LastOfColor(masks[..n], colors[..n], i, e);
      assert masks[e.segmentId] == masks[..n][e.segmentId];
    }
  }

  /** With distinct colours, as the colour generator intends, the key of
      colors[i] maps to segment i. */
  lemma ColorMapDistinct(masks: seq<MaskData>, colors: seq<Rgb>, i: int)
    requires |colors| == |masks| && 0 <= i < |colors|
    requires forall a, b :: 0 <= a < b < |colors| ==> colors[a] != colors[b]
    ensures ColorKey(colors[i]) in ColorMapOf(masks, colors)
    ensures ColorMapOf(masks, colors)[ColorKey(colors[i])] == ColorEntry(i, ConfidenceOf(masks[i]))
  {
    ColorMapLastWins(masks, colors, i);
  }

  /** The segments of a response are all the processed segments, by non-increasing
      confidence, equal confidences in generator order. */
  lemma AutoSegmentOrder(masks: seq<MaskData>)
    requires forall i :: 0 <= i < |masks| ==> masks[i].segmentation.Valid()
    ensures var s := SortByConfidence(Processed(masks));
            && multiset(s) == multiset(Processed(masks))
            && SortedDesc(s)
            && TiesById(s)
  {
    ProcessedIds(masks);
    SortByConfidenceCorrect(Processed(masks));
  }
}
