/** The coordinate arithmetic of `draw_box_on_image`: box coordinates are
    given relative to the square that letterboxes the picture (side = the
    longer edge, picture centred), four numbers per box, and are mapped back
    to picture pixels before the outline and the label are drawn. */
module BoxDrawing {
  import opened Wrappers
  import Grounding

  datatype ImageSize = ImageSize(width: nat, height: nat)

  /** Pixel offset of the picture inside its letterbox square. */
  datatype Origin = Origin(x: int, y: int)

  datatype Box = Box(x1: real, y1: real, x2: real, y2: real)

  /** An outlined box together with the anchor of its label. */
  datatype DrawnBox = DrawnBox(box: Box, color: string, name: string, labelX: real, labelY: real)

  /** One entry of the list handed to the drawing routine: name, points, colour. */
  datatype Labeled = Labeled(name: string, points: seq<real>, color: string)

  datatype DrawError =
    | NoImage            // no picture to open
    | Unpack(got: nat)   // a trailing group of fewer than four numbers

  /** Offset from the label anchor to the box corner, in pixels. */
  const LabelInset: real := 3.0

  function MaxEdge(img: ImageSize): (m: nat)
    ensures m >= img.width && m >= img.height
    ensures m == img.width || m == img.height
  {
    if img.width < img.height then img.height else img.width
  }

  /** `off` centres a run of length `w` in a run of length `m`, leaving the odd
      pixel, if any, at the far end. */
  predicate Centered(m: int, w: int, off: int) {
    0 <= m - w - 2 * off <= 1
  }

  /** The letterbox origin: the shorter side is centred, the longer one flush. */
  function LetterboxOrigin(img: ImageSize): (o: Origin)
    ensures 0 <= o.x && 0 <= o.y
    ensures o.x == 0 || o.y == 0
    ensures Centered(MaxEdge(img), img.width, o.x)
    ensures Centered(MaxEdge(img), img.height, o.y)
  {
    if img.width < img.height then Origin((img.height - img.width) / 2, 0)
    else Origin(0, (img.width - img.height) / 2)
  }

  /** Centring pins the origin down: any offsets that centre both sides are
      the letterbox origin. */
  lemma LetterboxUnique(img: ImageSize, o: Origin)
    requires Centered(MaxEdge(img), img.width, o.x)
    requires Centered(MaxEdge(img), img.height, o.y)
    ensures o == LetterboxOrigin(img)
  {
    var l := LetterboxOrigin(img);
    assert Centered(MaxEdge(img), img.width, l.x);
    assert Centered(MaxEdge(img), img.height, l.y);
  }

  /** Square-relative coordinate to picture pixels. */
  function ToPicture(v: real, m: nat, off: int): real {
    v * (m as real) - (off as real)
  }

  /** The box made of the group of four numbers starting at `k`. */
  function BoxAt(vals: seq<real>, k: nat, m: nat, o: Origin): Box
    requires k + 4 <= |vals|
  {
    Box(ToPicture(vals[k], m, o.x), ToPicture(vals[k + 1], m, o.y),
        ToPicture(vals[k + 2], m, o.x), ToPicture(vals[k + 3], m, o.y))
  }

  /** The boxes of one points list, four numbers at a time; a shorter last
      group fails to unpack. */
  function Boxes(vals: seq<real>, m: nat, o: Origin): (r: Result<seq<Box>, DrawError>)
    ensures r.Ok? <==> |vals| % 4 == 0
    ensures r.Err? ==> r.error == Unpack(|vals| % 4)
    ensures r.Ok? ==> |r.value| == |vals| / 4
    ensures r.Ok? ==> forall j :: 0 <= j < |r.value| ==> 4 * j + 4 <= |vals| && r.value[j] == BoxAt(vals, 4 * j, m, o)
    decreases |vals|
  {
    if |vals| == 0 then Ok([])
    else if |vals| < 4 then Err(Unpack(|vals|))
    else
      GroupShift(|vals|);
      var rest := Boxes(vals[4..], m, o);
      if rest.Err? then rest
      else
        BoxesShift(vals, m, o, rest.value);
        Ok([BoxAt(vals, 0, m, o)] + rest.value)
  }

  lemma GroupShift(n: int)
    requires n >= 4
    ensures (n - 4) % 4 == n % 4 && (n - 4) / 4 == n / 4 - 1
  {
  }

  lemma BoxesShift(vals: seq<real>, m: nat, o: Origin, rest: seq<Box>)
    requires |vals| >= 4
    requires forall j :: 0 <= j < |rest| ==> 4 * j + 4 <= |vals[4..]| && rest[j] == BoxAt(vals[4..], 4 * j, m, o)
    ensures forall j :: 1 <= j <= |rest| ==> 4 * j + 4 <= |vals| && rest[j - 1] == BoxAt(vals, 4 * j, m, o)
  {
    forall j | 1 <= j <= |rest|
      ensures 4 * j + 4 <= |vals| && rest[j - 1] == BoxAt(vals, 4 * j, m, o)
    {
      var t := vals[4..];
      var i := j - 1;
      assert 4 * i + 4 <= |t| && rest[i] == BoxAt(t, 4 * i, m, o);
      assert 4 * i + 4 == 4 * j;
      assert t[4 * i] == vals[4 * j];
      assert t[4 * i + 1] == vals[4 * j + 1];
      assert t[4 * i + 2] == vals[4 * j + 2];
      assert t[4 * i + 3] == vals[4 * j + 3];
    }
  }

  /** Outline plus label anchor of one box. */
  function Outline(b: Box, name: string, color: string): (d: DrawnBox)
    ensures d.labelX - d.box.x1 == LabelInset && d.labelY - d.box.y1 == LabelInset
  {
    DrawnBox(b, color, name, b.x1 + LabelInset, b.y1 + LabelInset)
  }

  function OutlineAll(bs: seq<Box>, name: string, color: string): (ds: seq<DrawnBox>)
    ensures |ds| == |bs|
    ensures forall j :: 0 <= j < |ds| ==> ds[j] == Outline(bs[j], name, color)
  {
    seq(|bs|, j requires 0 <= j < |bs| => Outline(bs[j], name, color))
  }

  /** Number of boxes a well-formed list describes. */
  function TotalBoxes(items: seq<Labeled>): nat {
    if |items| == 0 then 0 else |items[0].points| / 4 + TotalBoxes(items[1..])
  }

  predicate AllGrouped(items: seq<Labeled>) {
    forall i :: 0 <= i < |items| ==> |items[i].points| % 4 == 0
  }

  /** Where box `j` of entry `i` lands in the drawing: after every box of the
      entries before it. */
  function BoxIndex(items: seq<Labeled>, i: nat, j: nat): nat
    requires i <= |items|
  {
    TotalBoxes(items[..i]) + j
  }

  /** `ds` draws every group of four of every entry: box `j` of entry `i` is
      that group mapped to the picture, outlined in the entry's colour and
      labelled with its name. */
  predicate EntriesDrawn(items: seq<Labeled>, m: nat, o: Origin, ds: seq<DrawnBox>) {
    forall i, j :: 0 <= i < |items| && 0 <= j < |items[i].points| / 4 ==>
      && BoxIndex(items, i, j) < |ds|
      && 4 * j + 4 <= |items[i].points|
      && ds[BoxIndex(items, i, j)] == Outline(BoxAt(items[i].points, 4 * j, m, o), items[i].name, items[i].color)
  }

  /** The boxes of every entry in order, given the letterbox of the picture;
      the first bad points list aborts the whole drawing. */
  function DrawItems(items: seq<Labeled>, m: nat, o: Origin): (r: Result<seq<DrawnBox>, DrawError>)
    ensures r.Ok? <==> AllGrouped(items)
    ensures r.Ok? ==> |r.value| == TotalBoxes(items)
    ensures r.Ok? ==> forall j :: 0 <= j < |r.value| ==>
      r.value[j].labelX == r.value[j].box.x1 + LabelInset && r.value[j].labelY == r.value[j].box.y1 + LabelInset
    ensures r.Ok? ==> EntriesDrawn(items, m, o, r.value)
    decreases |items|
  {
    if |items| == 0 then Ok([])
    else
      var it := items[0];
      var bs := Boxes(it.points, m, o);
      if bs.Err? then Err(bs.error)
      else
        var rest := DrawItems(items[1..], m, o);
        if rest.Err? then
          assert forall i :: 1 <= i < |items| ==> items[i] == items[1..][i - 1];
          rest
        else
          AllGroupedCons(items);
          var head := OutlineAll(bs.value, it.name, it.color);
          EntriesDrawnCons(items, m, o, head, rest.value);
          Ok(head + rest.value)
  }

  /** The boxes of the first entry in front of a drawing of the others draw
      every entry. */
  lemma EntriesDrawnCons(items: seq<Labeled>, m: nat, o: Origin, head: seq<DrawnBox>, rest: seq<DrawnBox>)
    requires |items| > 0
    requires |head| == |items[0].points| / 4
    requires forall j :: 0 <= j < |head| ==>
      4 * j + 4 <= |items[0].points| && head[j] == Outline(BoxAt(items[0].points, 4 * j, m, o), items[0].name, items[0].color)
    requires EntriesDrawn(items[1..], m, o, rest)
    ensures EntriesDrawn(items, m, o, head + rest)
  {
    forall i, j | 0 <= i < |items| && 0 <= j < |items[i].points| / 4
      ensures && BoxIndex(items, i, j) < |head + rest|
              && 4 * j + 4 <= |items[i].points|
              && (head + rest)[BoxIndex(items, i, j)] == Outline(BoxAt(items[i].points, 4 * j, m, o), items[i].name, items[i].color)
    {
      if i == 0 {
        assert items[..0] == [];
      } else {
        TotalBoxesShift(items, i);
        assert items[i] == items[1..][i - 1];
        assert BoxIndex(items, i, j) == |head| + BoxIndex(items[1..], i - 1, j);
      }
    }
  }

  /** The boxes before entry `i` are the first entry's and those of the
      entries between. */
  lemma TotalBoxesShift(items: seq<Labeled>, i: nat)
    requires 0 < i <= |items|
    ensures TotalBoxes(items[..i]) == |items[0].points| / 4 + TotalBoxes(items[1..][..i - 1])
  {
    assert items[..i][1..] == items[1..][..i - 1];
  }

  lemma AllGroupedCons(items: seq<Labeled>)
    requires |items| > 0
    ensures AllGrouped(items) <==> |items[0].points| % 4 == 0 && AllGrouped(items[1..])
  {
    if |items[0].points| % 4 == 0 && AllGrouped(items[1..]) {
      forall i | 0 <= i < |items| ensures |items[i].points| % 4 == 0 {
        if i > 0 {
          assert items[i] == items[1..][i - 1];
        }
      }
    }
  }

  /** `draw_box_on_image`: letterbox the picture, then draw every box. */
  function DrawBoxOnImage(img: Option<ImageSize>, items: seq<Labeled>): (r: Result<seq<DrawnBox>, DrawError>)
    ensures r.Ok? <==> img.Some? && AllGrouped(items)
    ensures img.None? ==> r == Err(NoImage)
    ensures r.Ok? ==> |r.value| == TotalBoxes(items)
  {
    match img
    case None => Err(NoImage)
    case Some(size) => DrawItems(items, MaxEdge(size), LetterboxOrigin(size))
  }

  /** Every entry is drawn: box `j` of entry `i` is that entry's `j`-th group
      of four mapped from the letterbox square of the picture, outlined in the
      entry's colour and labelled with its name. */
  lemma DrawnEntries(size: ImageSize, items: seq<Labeled>)
    ensures var r := DrawBoxOnImage(Some(size), items);
      r.Ok? ==> EntriesDrawn(items, MaxEdge(size), LetterboxOrigin(size), r.value)
  {
  }

  /** The boxes of one entry are the groups of four of its points, each mapped
      from the letterbox square to the picture. */
  lemma FirstItemBoxes(size: ImageSize, items: seq<Labeled>, j: nat)
    requires AllGrouped(items) && |items| > 0
    requires j < |items[0].points| / 4
    ensures var r := DrawBoxOnImage(Some(size), items);
      var m := MaxEdge(size);
      var o := LetterboxOrigin(size);
      && r.Ok?
      && 4 * j + 4 <= |items[0].points|
      && r.value[j].box == BoxAt(items[0].points, 4 * j, m, o)
      && r.value[j].name == items[0].name
      && r.value[j].color == items[0].color
  {
    var m := MaxEdge(size);
    var o := LetterboxOrigin(size);
    AllGroupedCons(items);
    var bs := Boxes(items[0].points, m, o);
    assert bs.Ok?;
    var rest := DrawItems(items[1..], m, o);
    assert rest.Ok?;
    assert DrawItems(items, m, o).value == OutlineAll(bs.value, items[0].name, items[0].color) + rest.value;
  }

  /** The numbers of one extracted annotation as reals. */
  function Points(toks: seq<string>): (ps: seq<real>)
    requires forall k :: 0 <= k < |toks| ==> Grounding.IsDecimalToken(toks[k])
    ensures |ps| == |toks|
    ensures forall k :: 0 <= k < |ps| ==>
      Grounding.DigitsValue(Grounding.IntegerPart(toks[k])) as real <= ps[k]
      < (Grounding.DigitsValue(Grounding.IntegerPart(toks[k])) + 1) as real
  {
    seq(|toks|, k requires 0 <= k < |toks| => Grounding.DecimalValue(toks[k]))
  }

  /** The list `extract_and_color` hands to the drawing routine. */
  function ToLabeled(anns: seq<Grounding.Annotation>): (items: seq<Labeled>)
    requires forall i :: 0 <= i < |anns| ==> forall k :: 0 <= k < |anns[i].numbers| ==> Grounding.IsDecimalToken(anns[i].numbers[k])
    ensures |items| == |anns|
    ensures forall i :: 0 <= i < |items| ==>
      items[i].name == anns[i].text && items[i].color == anns[i].color && |items[i].points| == |anns[i].numbers|
  {
    seq(|anns|, i requires 0 <= i < |anns| => Labeled(anns[i].text, Points(anns[i].numbers), anns[i].color))
  }
}
