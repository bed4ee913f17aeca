/**
 * src/assets.rs: tile-map layers read from a Tiled TMX document, the draw
 * records that `Map::draw` produces from them, and the frame-duration
 * bookkeeping of animations loaded from Aseprite files.
 *
 * Every `unwrap`, out-of-range slice, `% 0` and (debug-build) integer
 * overflow in the source is a panic; the model returns `None` for it.
 */
module Assets {
  import opened Shared
  import opened Text

  // ===========================================================================
  // Tile-map layers
  // ===========================================================================

  /** `TileMap(Vec<u8>, usize)`: the tile ids of one layer and the map width in cells. */
  datatype TileMap = TileMap(tiles: seq<u8>, width: nat)

  /** The three layers of the map, all read from the same document. */
  datatype Map = Map(floor: TileMap, walls: TileMap, detail: TileMap)

  const WIDTH_ATTR := "width=\""
  const QUOTE := "\""
  const DATA_OPEN := "<data encoding=\"csv\">"
  const DATA_CLOSE := "</data>"

  /** The number after the first `width="` anywhere in the document, parsed as a `usize`. */
  function DocWidth(xml: string): (r: Option<nat>)
    ensures r.Some? ==> r.value < USIZE_LIMIT
    ensures SplitOnce(xml, WIDTH_ATTR).None? ==> r.None?
  {
    match SplitOnce(xml, WIDTH_ATTR)
    case None => None
    case Some((_, after)) =>
      match SplitOnce(after, QUOTE)
      case None => None
      case Some((digits, _)) => ParseUnsigned(digits, USIZE_LIMIT)
  }

  /**
   * The width comes from the first `width="…"` in the whole document,
   * whichever layer or element it belongs to.
   */
  lemma DocWidthFirst(xml: string, pre: string, n: nat, rest: string)
    requires xml == pre + WIDTH_ATTR + Decimal(n) + QUOTE + rest
    requires forall j: nat :: j < |pre| ==> !OccursAt(xml, WIDTH_ATTR, j)
    requires n < USIZE_LIMIT
    ensures DocWidth(xml) == Some(n)
  {
    var digits := Decimal(n);
    var after := digits + QUOTE + rest;
    assert xml == pre + WIDTH_ATTR + after;
    SplitOnceAt(xml, WIDTH_ATTR, pre, after);
    DigitsBeforeQuote(digits, rest);
    SplitOnceAt(after, QUOTE, digits, rest);
    ParseDecimal(n, USIZE_LIMIT);
  }

  /** No quote starts inside a run of digits. */
  lemma DigitsBeforeQuote(digits: string, rest: string)
    requires AllDigits(digits)
    ensures forall j: nat :: j < |digits| ==> !OccursAt(digits + QUOTE + rest, QUOTE, j)
  {
    var s := digits + QUOTE + rest;
    forall j: nat | j < |digits| ensures !OccursAt(s, QUOTE, j) {
      assert s[j] == digits[j];
    }
  }

  /** `format!("name=\"{layer_name}\" ")`. */
  function LayerPattern(layerName: string): string
  {
    "name=\"" + layerName + "\" "
  }

  lemma OccursInPrefix(s: string, pat: string, rest: string, j: nat)
    requires OccursAt(s, pat, j)
    ensures OccursAt(s + rest, pat, j)
  {
    assert (s + rest)[j..j + |pat|] == s[j..j + |pat|];
  }

  /**
   * The CSV text of a layer: what lies between the first `<data encoding="csv">`
   * after the layer's `name="…" ` and the next `</data>`.
   */
  function LayerCsv(xml: string, layerName: string): (r: Option<string>)
    ensures r.Some? ==> forall j: nat :: !OccursAt(r.value, DATA_CLOSE, j)
  {
    match SplitOnce(xml, LayerPattern(layerName))
    case None => None
    case Some((_, afterName)) =>
      match SplitOnce(afterName, DATA_OPEN)
      case None => None
      case Some((_, afterData)) =>
        match SplitOnce(afterData, DATA_CLOSE)
        case None => None
        case Some((csv, rest)) =>
          assert afterData == csv + (DATA_CLOSE + rest);
          assert forall j: nat :: !OccursAt(csv, DATA_CLOSE, j) by {
            forall j: nat ensures !OccursAt(csv, DATA_CLOSE, j) {
              if OccursAt(csv, DATA_CLOSE, j) {
                OccursInPrefix(csv, DATA_CLOSE, DATA_CLOSE + rest, j);
              }
            }
          }
          Some(csv)
  }

  /**
   * The CSV text read for a layer is exactly what lies between the first
   * `<data encoding="csv">` after the layer's first `name="…" ` and the next
   * `</data>`; whatever precedes or follows is not read.
   */
  lemma LayerCsvBetweenMarkers(xml: string, layerName: string, pre: string, mid: string, csv: string, rest: string)
    requires xml == pre + LayerPattern(layerName) + mid + DATA_OPEN + csv + DATA_CLOSE + rest
    requires forall j: nat :: j < |pre| ==> !OccursAt(xml, LayerPattern(layerName), j)
    requires forall j: nat :: j < |mid| ==> !OccursAt(mid + DATA_OPEN + csv + DATA_CLOSE + rest, DATA_OPEN, j)
    requires forall j: nat :: j < |csv| ==> !OccursAt(csv + DATA_CLOSE + rest, DATA_CLOSE, j)
    ensures LayerCsv(xml, layerName) == Some(csv)
  {
    var afterData := csv + DATA_CLOSE + rest;
    var afterName := mid + DATA_OPEN + afterData;
    assert afterName == mid + DATA_OPEN + csv + DATA_CLOSE + rest;
    assert xml == pre + LayerPattern(layerName) + afterName;
    SplitOnceAt(xml, LayerPattern(layerName), pre, afterName);
    SplitOnceAt(afterName, DATA_OPEN, mid, afterData);
    SplitOnceAt(afterData, DATA_CLOSE, csv, rest);
  }

  /** `tile.trim().parse::<u8>()` for one CSV field. */
  function ParseTile(field: string): (r: Option<u8>)
    ensures r.Some? ==> |UnsignedDigits(Trim(field))| > 0 && AllDigits(UnsignedDigits(Trim(field)))
  {
    match ParseUnsigned(Trim(field), 256)
    case None => None
    case Some(v) => Some(v)
  }

  /** All values in order, or None when one of the results is missing. */
  function Collect(parsed: seq<Option<u8>>): Option<seq<u8>>
  {
    if |parsed| == 0 then Some([])
    else
      match Collect(parsed[..|parsed| - 1])
      case None => None
      case Some(init) =>
        match parsed[|parsed| - 1]
        case None => None
        case Some(v) => Some(init + [v])
  }

  /** Collect fails exactly when some result is missing, and otherwise keeps every value in place. */
  lemma {:induction false} CollectSpec(parsed: seq<Option<u8>>)
    ensures Collect(parsed).Some? <==> forall i :: 0 <= i < |parsed| ==> parsed[i].Some?
    ensures Collect(parsed).Some? ==>
              |Collect(parsed).value| == |parsed|
              && forall i :: 0 <= i < |parsed| ==> parsed[i] == Some(Collect(parsed).value[i])
  {
    if |parsed| > 0 {
      var init := parsed[..|parsed| - 1];
      CollectSpec(init);
      assert forall i :: 0 <= i < |init| ==> init[i] == parsed[i];
    }
  }

  /** The per-field results of `tile.trim().parse()`. */
  function ParsedFields(fields: seq<string>): (r: seq<Option<u8>>)
    ensures |r| == |fields|
  {
    seq(|fields|, i requires 0 <= i < |fields| => ParseTile(fields[i]))
  }

  /** The tile ids of a list of CSV fields, or None when one of them is not a `u8`. */
  function ParseTiles(fields: seq<string>): Option<seq<u8>>
  {
    Collect(ParsedFields(fields))
  }

  /** The fields of a layer's CSV text. */
  function Fields(csv: string): seq<string>
  {
    Split(csv, ',')
  }

  /** `parse_tilemap_layer(xml, layer_name)`, None where it panics. */
  function ParseLayer(xml: string, layerName: string): (r: Option<TileMap>)
    ensures r.Some? ==> DocWidth(xml) == Some(r.value.width)
    ensures r.Some? ==> |r.value.tiles| >= 1 && r.value.tiles[0] == 0
  {
    match DocWidth(xml)
    case None => None
    case Some(w) =>
      match LayerCsv(xml, layerName)
      case None => None
      case Some(csv) =>
        match ParseTiles(Fields(csv))
        case None => None
        case Some(ts) => Some(TileMap([0] + ts, w))
  }

  /** Every field parses. */
  predicate AllTilesParse(fields: seq<string>)
  {
    forall i :: 0 <= i < |fields| ==> ParseTile(fields[i]).Some?
  }

  /** The layer can be read without a panic. */
  predicate LayerReadable(xml: string, layerName: string)
  {
    DocWidth(xml).Some? && LayerCsv(xml, layerName).Some?
    && AllTilesParse(Fields(LayerCsv(xml, layerName).value))
  }

  /**
   * `t` is the layer read from `fields`: width `w`, a leading 0, then one
   * tile per field in order.
   */
  predicate ParsedFrom(t: TileMap, w: nat, fields: seq<string>)
  {
    t.width == w && |t.tiles| == |fields| + 1 && t.tiles[0] == 0
    && forall i :: 0 <= i < |fields| ==> ParseTile(fields[i]) == Some(t.tiles[i + 1])
  }

  /** ParseTiles fails exactly when some field fails, and otherwise parses field by field. */
  lemma ParseTilesElementwise(fields: seq<string>)
    ensures ParseTiles(fields).Some? <==> AllTilesParse(fields)
    ensures ParseTiles(fields).Some? ==>
              |ParseTiles(fields).value| == |fields|
              && forall i :: 0 <= i < |fields| ==> ParseTile(fields[i]) == Some(ParseTiles(fields).value[i])
  {
    var parsed := ParsedFields(fields);
    CollectSpec(parsed);
    assert forall i :: 0 <= i < |fields| ==> parsed[i] == ParseTile(fields[i]);
  }

  /**
   * The result of `parse_tilemap_layer` described field by field: it exists
   * exactly when the width, the markers and every field are readable, and
   * then holds the document width, a leading 0 and one tile per CSV field.
   */
  lemma ParseLayerSpec(xml: string, layerName: string)
    ensures ParseLayer(xml, layerName).Some? <==> LayerReadable(xml, layerName)
    ensures ParseLayer(xml, layerName).Some? ==>
              ParsedFrom(ParseLayer(xml, layerName).value, DocWidth(xml).value,
                         Fields(LayerCsv(xml, layerName).value))
  {
    if LayerCsv(xml, layerName).Some? {
      ParseTilesElementwise(Fields(LayerCsv(xml, layerName).value));
    }
  }

  /**
   * `parse_tilemap_layer`: finds the width and the layer's CSV block, then
   * pushes one parsed tile per comma-separated field after a leading 0.
   */
  method ParseTilemapLayer(xml: string, layerName: string) returns (r: Option<TileMap>)
    ensures r == ParseLayer(xml, layerName)
    ensures r.Some? <==> LayerReadable(xml, layerName)
    ensures r.Some? ==> LayerReadable(xml, layerName)
                        && ParsedFrom(r.value, DocWidth(xml).value, Fields(LayerCsv(xml, layerName).value))
  {
    ParseLayerSpec(xml, layerName);
    var width := DocWidth(xml);
    if width.None? {
      return None;
    }
    var csv := LayerCsv(xml, layerName);
    if csv.None? {
      return None;
    }
    var data := ReadTiles(Fields(csv.value));
    if data.None? {
      return None;
    }
    r := Some(TileMap(data.value, width.value));
  }

  /**
   * The `while let` loop of `parse_tilemap_layer`: starting from `vec![0]`,
   * pushes the parsed value of each field in turn; None where a field fails.
   */
  method ReadTiles(fields: seq<string>) returns (r: Option<seq<u8>>)
    ensures r.Some? <==> ParseTiles(fields).Some?
    ensures r.Some? ==> r.value == [0] + ParseTiles(fields).value
  {
    ghost var parsed := ParsedFields(fields);
    var data: seq<u8> := [0];
    var i := 0;
    assert parsed[..0] == [] && data[1..] == [];
    while i < |fields|
      invariant 0 <= i <= |fields|
      invariant |data| >= 1 && data[0] == 0
      invariant Collect(parsed[..i]) == Some(data[1..])
    {
      var tile := ParseTile(fields[i]);
      assert parsed[i] == tile;
      if tile.None? {
        CollectSpec(parsed);
        return None;
      }
      ghost var tail := data[1..];
      assert Collect(parsed[..i + 1]) == Some(tail + [tile.value]) by {
        assert parsed[..i + 1][..i] == parsed[..i];
      }
      data := data + [tile.value];
      assert data[1..] == tail + [tile.value];
      i := i + 1;
    }
    assert parsed[..i] == parsed;
    assert data == [0] + data[1..];
    r := Some(data);
  }

  /** `Map::new`: the three layers of one document. */
  method MapNew(xml: string) returns (r: Option<Map>)
    ensures r.Some? <==> LayerReadable(xml, "floor") && LayerReadable(xml, "walls") && LayerReadable(xml, "detail")
    ensures r.Some? ==> ParseLayer(xml, "floor") == Some(r.value.floor)
                        && ParseLayer(xml, "walls") == Some(r.value.walls)
                        && ParseLayer(xml, "detail") == Some(r.value.detail)
    ensures r.Some? ==> DocWidth(xml) == Some(r.value.floor.width)
                        && r.value.floor.width == r.value.walls.width == r.value.detail.width
  {
    var floor := ParseTilemapLayer(xml, "floor");
    var walls := ParseTilemapLayer(xml, "walls");
    var detail := ParseTilemapLayer(xml, "detail");
    if floor.None? || walls.None? || detail.None? {
      return None;
    }
    r := Some(Map(floor.value, walls.value, detail.value));
  }

  /**
   * White space around the fields, line breaks included, does not change the
   * tiles read: padding every field of a CSV block gives the same tiles.
   */
  lemma PaddedFieldsParseAlike(fields: seq<string>, pre: seq<string>, post: seq<string>)
    requires |fields| >= 1 && |pre| == |fields| && |post| == |fields|
    requires forall i :: 0 <= i < |fields| ==> ',' !in fields[i]
    requires forall i :: 0 <= i < |fields| ==> AllWhitespace(pre[i]) && AllWhitespace(post[i])
    ensures var padded := seq(|fields|, i requires 0 <= i < |fields| => pre[i] + fields[i] + post[i]);
            ParseTiles(Fields(Join(padded, ','))) == ParseTiles(Fields(Join(fields, ',')))
  {
    var padded := seq(|fields|, i requires 0 <= i < |fields| => pre[i] + fields[i] + post[i]);
    forall i | 0 <= i < |fields| ensures ',' !in padded[i] && Trim(padded[i]) == Trim(fields[i]) {
      TrimIgnoresPadding(pre[i], fields[i], post[i]);
      assert ',' !in pre[i] && ',' !in post[i] by {
        assert !IsWhitespace(',');
      }
    }
    SplitJoin(padded, ',');
    SplitJoin(fields, ',');
    assert ParsedFields(padded) == ParsedFields(fields);
  }

  // ===========================================================================
  // Map::draw
  // ===========================================================================

  /** One `draw_tile` call: screen position in pixels and (column, row) in the sprite sheet. */
  datatype DrawCmd = DrawCmd(screen: Vec2, sheetCell: Vec2)

  /** The draw for tile value `tile` (not 0) at vector index `index`. */
  function CellDraw(index: nat, tile: nat, width: nat, sheetWidth: nat): (d: DrawCmd)
    requires tile > 0 && width > 0 && sheetWidth > 0
    ensures d.screen.x % TILE_SIZE == 0 && d.screen.y % TILE_SIZE == 0
    ensures 0 <= d.screen.x / TILE_SIZE < width && 0 <= d.sheetCell.x < sheetWidth
  {
    DrawCmd(CellToPixel(index % width, index / width),
            Vec2((tile - 1) % sheetWidth, (tile - 1) / sheetWidth))
  }

  /**
   * A draw record determines what was drawn: its screen position gives back
   * the vector index, its sheet cell gives back the tile value.
   */
  lemma CellDrawInverse(index: nat, tile: nat, width: nat, sheetWidth: nat)
    requires tile > 0 && width > 0 && sheetWidth > 0
    ensures var d := CellDraw(index, tile, width, sheetWidth);
            0 <= d.screen.x / TILE_SIZE < width
            && d.screen.x / TILE_SIZE + (d.screen.y / TILE_SIZE) * width == index
            && 0 <= d.sheetCell.x < sheetWidth
            && d.sheetCell.x + d.sheetCell.y * sheetWidth + 1 == tile
  {
  }

  /**
   * The draws of one layer, in index order, or None when a nonzero tile meets
   * a zero width (`index % 0`) or a zero sheet width (`tile % 0`).
   */
  function LayerDraws(tiles: seq<u8>, width: nat, sheetWidth: nat): (r: Option<seq<DrawCmd>>)
    ensures r.Some? ==> |r.value| <= |tiles|
  {
    if |tiles| == 0 then Some([])
    else
      match LayerDraws(tiles[..|tiles| - 1], width, sheetWidth)
      case None => None
      case Some(init) =>
        var i := |tiles| - 1;
        if tiles[i] == 0 then Some(init)
        else if width == 0 || sheetWidth == 0 then None
        else Some(init + [CellDraw(i, tiles[i], width, sheetWidth)])
  }

  /** The draws of several layers one after another. */
  function LayersDraws(layers: seq<TileMap>, sheetWidth: nat): (r: Option<seq<DrawCmd>>)
    ensures r.None? <==> exists i :: 0 <= i < |layers| && LayerDraws(layers[i].tiles, layers[i].width, sheetWidth).None?
  {
    if |layers| == 0 then Some([])
    else
      match LayersDraws(layers[..|layers| - 1], sheetWidth)
      case None => None
      case Some(init) =>
        var last := layers[|layers| - 1];
        match LayerDraws(last.tiles, last.width, sheetWidth)
        case None => None
        case Some(ds) => Some(init + ds)
  }

  /** The indices of the nonzero tiles, in increasing order. */
  function NonZeroIndices(tiles: seq<u8>): seq<nat>
  {
    if |tiles| == 0 then []
    else
      var init := NonZeroIndices(tiles[..|tiles| - 1]);
      if tiles[|tiles| - 1] == 0 then init else init + [|tiles| - 1]
  }

  lemma {:induction false} NonZeroIndicesSpec(tiles: seq<u8>)
    ensures forall j :: 0 <= j < |NonZeroIndices(tiles)| ==>
              NonZeroIndices(tiles)[j] < |tiles| && tiles[NonZeroIndices(tiles)[j]] != 0
    ensures forall j, k :: 0 <= j < k < |NonZeroIndices(tiles)| ==> NonZeroIndices(tiles)[j] < NonZeroIndices(tiles)[k]
    ensures forall i :: 0 <= i < |tiles| && tiles[i] != 0 ==> i in NonZeroIndices(tiles)
  {
    if |tiles| > 0 {
      var init := tiles[..|tiles| - 1];
      NonZeroIndicesSpec(init);
      assert forall i :: 0 <= i < |init| ==> init[i] == tiles[i];
    }
  }

  /**
   * `Map::draw` for one layer fails exactly when a nonzero tile meets a zero
   * width or a zero sheet width.
   */
  lemma {:induction false} LayerDrawsFails(tiles: seq<u8>, width: nat, sheetWidth: nat)
    ensures LayerDraws(tiles, width, sheetWidth).None? <==> (width == 0 || sheetWidth == 0) && |NonZeroIndices(tiles)| > 0
  {
    if |tiles| > 0 {
      LayerDrawsFails(tiles[..|tiles| - 1], width, sheetWidth);
    }
  }

  /**
   * `Map::draw` for one layer: a zero tile draws nothing; the j-th draw is the
   * j-th nonzero tile, at ((i mod w)·16, (i div w)·16) from sheet cell
   * ((v−1) mod sheet_w, (v−1) div sheet_w).
   */
  lemma {:induction false} LayerDrawsSpec(tiles: seq<u8>, width: nat, sheetWidth: nat)
    requires width > 0 && sheetWidth > 0
    ensures LayerDraws(tiles, width, sheetWidth).Some?
    ensures var ds := LayerDraws(tiles, width, sheetWidth).value;
            var idx := NonZeroIndices(tiles);
            |ds| == |idx|
            && forall j :: 0 <= j < |ds| ==> idx[j] < |tiles| && tiles[idx[j]] > 0
                                             && ds[j] == CellDraw(idx[j], tiles[idx[j]], width, sheetWidth)
  {
    NonZeroIndicesSpec(tiles);
    if |tiles| > 0 {
      var i := |tiles| - 1;
      var init := tiles[..i];
      LayerDrawsSpec(init, width, sheetWidth);
      NonZeroIndicesSpec(init);
      var ds0, idx0 := LayerDraws(init, width, sheetWidth).value, NonZeroIndices(init);
      var ds, idx := LayerDraws(tiles, width, sheetWidth).value, NonZeroIndices(tiles);
      assert forall j :: 0 <= j < |idx0| ==> idx[j] == idx0[j] && tiles[idx0[j]] == init[idx0[j]];
      assert forall j :: 0 <= j < |ds0| ==> ds[j] == ds0[j];
    }
  }

  /** The three layers in the order `Map::draw` visits them. */
  function DrawOrder(m: Map): seq<TileMap>
  {
    [m.floor, m.walls, m.detail]
  }

  /**
   * `Map::draw`, with the sprite sheet's width in tiles (the `u8` cast of
   * texture width over sprite size) as input; returns the `draw_tile` calls.
   */
  method MapDraw(m: Map, sheetWidth: u8) returns (r: Option<seq<DrawCmd>>)
    ensures r == LayersDraws(DrawOrder(m), sheetWidth)
  {
    var layers := DrawOrder(m);
    var out: seq<DrawCmd> := [];
    for li := 0 to |layers|
      invariant LayersDraws(layers[..li], sheetWidth) == Some(out)
    {
      assert layers[..li + 1][..li] == layers[..li];
      var layer := layers[li];
      var ds := DrawLayer(layer, sheetWidth);
      if ds.None? {
        LayersDrawsNoneExtends(layers, li + 1, sheetWidth);
        return None;
      }
      out := out + ds.value;
    }
    assert layers[..|layers|] == layers;
    r := Some(out);
  }

  /** The inner loop of `Map::draw`: the draws of one layer, in index order. */
  method DrawLayer(layer: TileMap, sheetWidth: nat) returns (r: Option<seq<DrawCmd>>)
    ensures r == LayerDraws(layer.tiles, layer.width, sheetWidth)
  {
    var out: seq<DrawCmd> := [];
    for index := 0 to |layer.tiles|
      invariant LayerDraws(layer.tiles[..index], layer.width, sheetWidth) == Some(out)
    {
      assert layer.tiles[..index + 1][..index] == layer.tiles[..index];
      var tile := layer.tiles[index];
      if tile == 0 {
        continue;
      }
      if layer.width == 0 || sheetWidth == 0 {
        // `index % layer.1` or `tile % spritesheet_width` divides by zero
        LayerDrawsNoneExtends(layer.tiles, index + 1, layer.width, sheetWidth);
        return None;
      }
      out := out + [CellDraw(index, tile, layer.width, sheetWidth)];
    }
    assert layer.tiles[..|layer.tiles|] == layer.tiles;
    r := Some(out);
  }

  /** Once some layers fail to draw, so do those layers followed by more. */
  lemma {:induction false} LayersDrawsNoneExtends(layers: seq<TileMap>, n: nat, sheetWidth: nat)
    requires n <= |layers|
    requires LayersDraws(layers[..n], sheetWidth).None?
    ensures LayersDraws(layers, sheetWidth).None?
    decreases |layers| - n
  {
    if n < |layers| {
      assert layers[..n + 1][..n] == layers[..n];
      LayersDrawsNoneExtends(layers, n + 1, sheetWidth);
    } else {
      assert layers[..n] == layers;
    }
  }

  /** Once a prefix of a layer fails to draw, the whole layer does. */
  lemma {:induction false} LayerDrawsNoneExtends(tiles: seq<u8>, n: nat, width: nat, sheetWidth: nat)
    requires n <= |tiles|
    requires LayerDraws(tiles[..n], width, sheetWidth).None?
    ensures LayerDraws(tiles, width, sheetWidth).None?
    decreases |tiles| - n
  {
    if n < |tiles| {
      assert tiles[..n + 1][..n] == tiles[..n];
      LayerDrawsNoneExtends(tiles, n + 1, width, sheetWidth);
    } else {
      assert tiles[..n] == tiles;
    }
  }

  // ===========================================================================
  // Animations
  // ===========================================================================

  /** One animation frame: an opaque texture handle and its duration in milliseconds. */
  datatype Frame = Frame(texture: nat, duration: u32)

  /** `Animation { frames, total_length }`. */
  datatype Animation = Animation(frames: seq<Frame>, totalLength: u32)

  /** An Aseprite tag: an inclusive range of frame numbers. */
  datatype TagRange = TagRange(from: nat, to: nat)

  /** The summed duration of a list of frames. */
  function Sum(frames: seq<Frame>): (r: nat)
    ensures forall i :: 0 <= i < |frames| ==> frames[i].duration <= r
  {
    if |frames| == 0 then 0 else frames[0].duration + Sum(frames[1..])
  }

  lemma {:induction false} SumAppend(a: seq<Frame>, b: seq<Frame>)
    ensures Sum(a + b) == Sum(a) + Sum(b)
  {
    if |a| > 0 {
      assert (a + b)[1..] == a[1..] + b;
      SumAppend(a[1..], b);
    } else {
      assert a + b == b;
    }
  }

  /**
   * `for f in frames { total_length += f.1 }` on a `u32`: the summed duration,
   * or None when the sum overflows (a panic in a debug build).
   */
  method SumDurations(frames: seq<Frame>) returns (total: Option<u32>)
    ensures total.Some? <==> Sum(frames) < U32_LIMIT
    ensures total.Some? ==> total.value == Sum(frames)
  {
    var t: u32 := 0;
    for i := 0 to |frames|
      invariant t == Sum(frames[..i])
    {
      SumAppend(frames[..i], [frames[i]]);
      assert [frames[i]][1..] == [];
      assert frames[..i + 1] == frames[..i] + [frames[i]];
      if t + frames[i].duration >= U32_LIMIT {
        SumAppend(frames[..i + 1], frames[i + 1..]);
        assert frames == frames[..i + 1] + frames[i + 1..];
        return None;
      }
      t := t + frames[i].duration;
    }
    assert frames[..|frames|] == frames;
    total := Some(t);
  }

  /**
   * `Animation::from_file` over the file's frames: keeps the frames in order
   * and accumulates their durations into `total_length`.
   */
  method AnimationFromFrames(frames: seq<Frame>) returns (r: Option<Animation>)
    ensures r.Some? <==> Sum(frames) < U32_LIMIT
    ensures r.Some? ==> r.value.frames == frames && r.value.totalLength == Sum(frames)
  {
    var kept: seq<Frame> := [];
    var totalLength: u32 := 0;
    for index := 0 to |frames|
      invariant kept == frames[..index]
      invariant totalLength == Sum(kept)
    {
      var frame := frames[index];
      SumAppend(kept, [frame]);
      assert [frame][1..] == [];
      assert frames[..index + 1] == kept + [frame];
      if totalLength + frame.duration >= U32_LIMIT {
        assert Sum(frames[..index + 1]) == totalLength + frame.duration;
        SumAppend(frames[..index + 1], frames[index + 1..]);
        assert frames == frames[..index + 1] + frames[index + 1..];
        return None;
      }
      totalLength := totalLength + frame.duration;
      kept := kept + [frame];
    }
    r := Some(Animation(kept, totalLength));
  }

  /** The first frame not yet claimed by tags before `k`, for tags in ascending order. */
  function Covered(tags: seq<TagRange>, k: nat): nat
    requires k <= |tags|
  {
    if k == 0 then 0 else tags[k - 1].to + 1
  }

  /** Tags that lie within `n` frames, each starting after the previous one ends. */
  predicate Ascending(tags: seq<TagRange>, n: nat)
  {
    (forall k :: 0 <= k < |tags| ==> tags[k].from <= tags[k].to < n)
    && (forall j, k :: 0 <= j < k < |tags| ==> tags[j].to < tags[k].from)
  }

  /** Ascending tags with no gaps between them that together cover all `n` frames. */
  predicate Contiguous(tags: seq<TagRange>, n: nat)
  {
    Ascending(tags, n)
    && (forall k {:trigger Covered(tags, k)} :: 0 <= k < |tags| ==> tags[k].from == Covered(tags, k))
    && Covered(tags, |tags|) == n
  }

  /** The frames of all animations, one animation after another. */
  function Flatten(anims: seq<Animation>): seq<Frame>
  {
    if |anims| == 0 then [] else Flatten(anims[..|anims| - 1]) + anims[|anims| - 1].frames
  }

  function AbsDiff(a: nat, b: nat): nat
  {
    if a >= b then a - b else b - a
  }

  /** The frames of a tag that lies within the list; nothing for one that does not. */
  function TagFrames(frames: seq<Frame>, tag: TagRange): seq<Frame>
  {
    if tag.from <= tag.to < |frames| then frames[tag.from..tag.to + 1] else []
  }

  /**
   * The state of AnimationsFromTags after `k` ascending tags: `offset` frames
   * have been removed, and from the first unclaimed frame on the remaining
   * list is the original one.
   */
  predicate AlignedAfter(frames: seq<Frame>, tags: seq<TagRange>, k: nat, remaining: seq<Frame>, offset: nat)
    requires k <= |tags|
  {
    offset <= Covered(tags, k) <= |frames|
    && |remaining| + offset == |frames|
    && remaining[Covered(tags, k) - offset..] == frames[Covered(tags, k)..]
  }

  /**
   * `AnimationsGroup::from_file` over the file's frames and tags: for each tag
   * it removes the frames `(start − offset)..(end − offset + 1)` from the
   * remaining list, sums their durations and advances `offset` by
   * `|end − start| + 1`.
   */
  method AnimationsFromTags(frames: seq<Frame>, tags: seq<TagRange>) returns (r: Option<seq<Animation>>)
    ensures r.Some? ==> |r.value| == |tags|
    ensures r.Some? ==> forall k :: 0 <= k < |tags| ==>
              |r.value[k].frames| == tags[k].to - tags[k].from + 1
              && r.value[k].totalLength == Sum(r.value[k].frames)
    ensures Ascending(tags, |frames|) ==>
              (r.Some? <==> forall k :: 0 <= k < |tags| ==> Sum(TagFrames(frames, tags[k])) < U32_LIMIT)
    ensures Ascending(tags, |frames|) && r.Some? ==>
              forall k :: 0 <= k < |tags| ==> r.value[k].frames == TagFrames(frames, tags[k])
    ensures Contiguous(tags, |frames|) && r.Some? ==> Flatten(r.value) == frames
  {
    var remaining := frames;
    var offset: nat := 0;
    var groups: seq<Animation> := [];
    for k := 0 to |tags|
      invariant TagLoop(frames, tags, k, groups, remaining, offset)
    {
      var step := ExtractTag(remaining, offset, tags[k]);
      if step.None? {
        TagLoopFails(frames, tags, k, groups, remaining, offset);
        return None;
      }
      var (anim, rest, nextOffset) := step.value;
      TagLoopStep(frames, tags, k, groups, remaining, offset, anim, rest, nextOffset);
      remaining, offset := rest, nextOffset;
      groups := groups + [anim];
    }
    TagLoopDone(frames, tags, groups, remaining, offset);
    r := Some(groups);
  }

  /**
   * What AnimationsFromTags knows after `k` tags: one animation per tag with
   * that tag's frame count and summed length, and on ascending tags each
   * animation holds its tag's frames and the remaining list is aligned.
   */
  ghost predicate TagLoop(frames: seq<Frame>, tags: seq<TagRange>, k: nat, groups: seq<Animation>,
                          remaining: seq<Frame>, offset: nat)
    requires k <= |tags|
  {
    |groups| == k
    && (forall j :: 0 <= j < k ==>
          |groups[j].frames| == tags[j].to - tags[j].from + 1 && groups[j].totalLength == Sum(groups[j].frames))
    && (Ascending(tags, |frames|) ==>
          AlignedAfter(frames, tags, k, remaining, offset)
          && forall j :: 0 <= j < k ==> groups[j].frames == TagFrames(frames, tags[j]))
  }

  /** A successful extraction of tag `k` extends the loop's facts to `k + 1` tags. */
  lemma TagLoopStep(frames: seq<Frame>, tags: seq<TagRange>, k: nat, groups: seq<Animation>,
                    remaining: seq<Frame>, offset: nat, anim: Animation, rest: seq<Frame>, nextOffset: nat)
    requires k < |tags| && TagLoop(frames, tags, k, groups, remaining, offset)
    requires offset <= tags[k].from <= tags[k].to + 1 && tags[k].to + 1 <= |remaining| + offset
    requires var lo, hi := tags[k].from - offset, tags[k].to + 1 - offset;
             anim.frames == remaining[lo..hi] && anim.totalLength == Sum(remaining[lo..hi])
             && rest == remaining[..lo] + remaining[hi..]
             && nextOffset == offset + AbsDiff(tags[k].to, tags[k].from) + 1
    ensures TagLoop(frames, tags, k + 1, groups + [anim], rest, nextOffset)
  {
    var next := groups + [anim];
    assert forall j :: 0 <= j < k ==> next[j] == groups[j];
    if Ascending(tags, |frames|) {
      ExtractAscending(frames, tags, k, remaining, offset);
    }
  }

  /** On ascending tags, a failed extraction means the tag's durations overflow `u32`. */
  lemma TagLoopFails(frames: seq<Frame>, tags: seq<TagRange>, k: nat, groups: seq<Animation>,
                     remaining: seq<Frame>, offset: nat)
    requires k < |tags| && TagLoop(frames, tags, k, groups, remaining, offset)
    requires !(offset <= tags[k].from <= tags[k].to + 1 && offset <= tags[k].to && tags[k].to + 1 <= |remaining| + offset
               && Sum(remaining[tags[k].from - offset..tags[k].to + 1 - offset]) < U32_LIMIT)
    ensures Ascending(tags, |frames|) ==> Sum(TagFrames(frames, tags[k])) >= U32_LIMIT
  {
    if Ascending(tags, |frames|) {
      ExtractAscending(frames, tags, k, remaining, offset);
    }
  }

  /** After all tags the loop's facts give AnimationsFromTags' promises. */
  lemma {:induction false} TagLoopDone(frames: seq<Frame>, tags: seq<TagRange>, groups: seq<Animation>, remaining: seq<Frame>, offset: nat)
    requires TagLoop(frames, tags, |tags|, groups, remaining, offset)
    ensures |groups| == |tags|
    ensures Ascending(tags, |frames|) ==> forall k :: 0 <= k < |tags| ==> Sum(TagFrames(frames, tags[k])) < U32_LIMIT
    ensures Contiguous(tags, |frames|) ==> Flatten(groups) == frames
  {
    assert forall k :: 0 <= k < |tags| ==> groups[k].totalLength < U32_LIMIT;
    if Contiguous(tags, |frames|) {
      ContiguousTagsPartition(frames, tags, groups);
    }
  }

  /**
   * The body of the tag loop of `AnimationsGroup::from_file`: extracts
   * `(start − offset)..(end − offset + 1)` from the remaining frames, sums
   * their durations, and advances the offset by `|end − start| + 1`. Returns
   * the new animation, the frames left and the new offset; None where the
   * source panics (a `usize` underflow, a range `extract_if` rejects, a `u32`
   * overflow of the sum).
   */
  method ExtractTag(remaining: seq<Frame>, offset: nat, tag: TagRange)
    returns (r: Option<(Animation, seq<Frame>, nat)>)
    ensures r.Some? <==> offset <= tag.from <= tag.to + 1 && offset <= tag.to && tag.to + 1 <= |remaining| + offset
                         && Sum(remaining[tag.from - offset..tag.to + 1 - offset]) < U32_LIMIT
    ensures r.Some? ==>
              var lo, hi := tag.from - offset, tag.to + 1 - offset;
              r.value.0.frames == remaining[lo..hi]
              && r.value.0.totalLength == Sum(remaining[lo..hi])
              && r.value.1 == remaining[..lo] + remaining[hi..]
              && r.value.2 == offset + AbsDiff(tag.to, tag.from) + 1
  {
    if tag.from < offset || tag.to < offset {
      // `start - offset` or `end - offset` underflows
      return None;
    }
    var lo, hi := tag.from - offset, tag.to - offset + 1;
    if lo > hi || hi > |remaining| {
      // `extract_if` rejects the range
      return None;
    }
    var included := remaining[lo..hi];
    var rest := remaining[..lo] + remaining[hi..];
    var total := SumDurations(included);
    if total.None? {
      return None;
    }
    r := Some((Animation(included, total.value), rest, offset + AbsDiff(tag.to, tag.from) + 1));
  }

  /**
   * One step of AnimationsFromTags on ascending tags: the extracted range is
   * the tag's own frames, and removing it keeps the rest aligned.
   */
  lemma ExtractAscending(frames: seq<Frame>, tags: seq<TagRange>, k: nat, remaining: seq<Frame>, offset: nat)
    requires k < |tags| && Ascending(tags, |frames|)
    requires AlignedAfter(frames, tags, k, remaining, offset)
    ensures var lo, hi := tags[k].from - offset, tags[k].to - offset + 1;
            lo <= hi <= |remaining|
            && remaining[lo..hi] == TagFrames(frames, tags[k])
            && AlignedAfter(frames, tags, k + 1, remaining[..lo] + remaining[hi..],
                            offset + AbsDiff(tags[k].to, tags[k].from) + 1)
  {
    var c := Covered(tags, k);
    var lo, hi := tags[k].from - offset, tags[k].to - offset + 1;
    var tail := remaining[c - offset..];
    assert remaining[lo..hi] == tail[tags[k].from - c..tags[k].to + 1 - c];
    assert remaining[hi..] == tail[tags[k].to + 1 - c..];
    assert (remaining[..lo] + remaining[hi..])[lo..] == remaining[hi..];
  }

  /**
   * Animations cut by contiguous tags partition the frame list in order:
   * their frames, one animation after another, are all the frames.
   */
  lemma {:induction false} ContiguousTagsPartition(frames: seq<Frame>, tags: seq<TagRange>, anims: seq<Animation>)
    requires Contiguous(tags, |frames|) && |anims| == |tags|
    requires forall k :: 0 <= k < |tags| ==> anims[k].frames == TagFrames(frames, tags[k])
    ensures Flatten(anims) == frames
  {
    assert Chained(tags, |frames|);
    PartitionPrefix(frames, tags, anims, |tags|);
    assert anims[..|tags|] == anims;
    assert frames[..|frames|] == frames;
  }

  /** Each tag starts right after the previous one and ends within `n` frames. */
  predicate Chained(tags: seq<TagRange>, n: nat)
  {
    forall k {:trigger Covered(tags, k)} :: 0 <= k < |tags| ==>
      tags[k].from == Covered(tags, k) && tags[k].from <= tags[k].to < n
  }

  /** The first `m` animations cover the frames before the first one not claimed by their tags. */
  lemma {:induction false} PartitionPrefix(frames: seq<Frame>, tags: seq<TagRange>, anims: seq<Animation>, m: nat)
    requires Chained(tags, |frames|) && |anims| == |tags| && m <= |tags|
    requires forall k :: 0 <= k < |tags| ==> anims[k].frames == TagFrames(frames, tags[k])
    ensures Covered(tags, m) <= |frames|
    ensures Flatten(anims[..m]) == frames[..Covered(tags, m)]
  {
    if m > 0 {
      PartitionPrefix(frames, tags, anims, m - 1);
      var k, t := m - 1, tags[m - 1];
      assert t.from == Covered(tags, k) && t.from <= t.to < |frames|;
      assert Covered(tags, m) == t.to + 1;
      var prefix := anims[..m];
      assert prefix[..k] == anims[..k];
      assert Flatten(prefix) == Flatten(anims[..k]) + anims[k].frames;
      assert anims[k].frames == frames[t.from..t.to + 1];
      assert frames[..t.to + 1] == frames[..t.from] + frames[t.from..t.to + 1];
    }
  }

  /** The index of the frame showing `x` milliseconds into the list, walking the durations. */
  function FrameIndex(frames: seq<Frame>, x: nat): (r: Option<nat>)
    ensures r.Some? ==> r.value < |frames|
  {
    if |frames| == 0 then None
    else if x < frames[0].duration then Some(0)
    else
      match FrameIndex(frames[1..], x - frames[0].duration)
      case None => None
      case Some(i) => Some(i + 1)
  }

  /**
   * FrameIndex finds a frame exactly when `x` is below the summed duration,
   * and that frame is the one whose time slot holds `x`.
   */
  lemma {:induction false} FrameIndexSpec(frames: seq<Frame>, x: nat)
    ensures FrameIndex(frames, x).Some? <==> x < Sum(frames)
    ensures FrameIndex(frames, x).Some? ==>
              var i := FrameIndex(frames, x).value;
              i < |frames| && Sum(frames[..i]) <= x < Sum(frames[..i + 1])
  {
    if |frames| > 0 {
      assert frames[..0] == [];
      assert frames[..1] == [frames[0]];
      if x >= frames[0].duration {
        FrameIndexSpec(frames[1..], x - frames[0].duration);
        if FrameIndex(frames[1..], x - frames[0].duration).Some? {
          var i := FrameIndex(frames[1..], x - frames[0].duration).value;
          assert frames[..i + 1][1..] == frames[1..][..i];
          assert frames[..i + 2][1..] == frames[1..][..i + 1];
        }
      }
    }
  }

  /** What `get_at_time` returns, as a frame index; None where it panics. */
  function FrameAtTime(anim: Animation, time: u32): (r: Option<nat>)
    ensures r.Some? ==> anim.totalLength > 0 && r.value < |anim.frames|
  {
    if anim.totalLength == 0 then None else FrameIndex(anim.frames, time % anim.totalLength)
  }

  /** `get_at_time` repeats with the clip: `t` and `t + total_length` show the same frame. */
  lemma FrameAtTimePeriodic(anim: Animation, time: u32)
    requires anim.totalLength > 0 && time + anim.totalLength < U32_LIMIT
    ensures FrameAtTime(anim, time) == FrameAtTime(anim, time + anim.totalLength)
  {
    var l := anim.totalLength;
    ModUnique(time + l, time / l + 1, time % l, l);
  }

  /** Quotient and remainder of `n` by `l` are the `q` and `r` of any division `n = q·l + r` with `0 <= r < l`. */
  lemma ModUnique(n: nat, q: nat, r: nat, l: nat)
    requires 0 <= r < l && n == q * l + r
    ensures n / l == q && n % l == r
  {
    var q0, r0 := n / l, n % l;
    assert n == q0 * l + r0;
    var d: int := q - q0;
    assert d * l == r0 - r by {
      assert q * l - q0 * l == (q - q0) * l;
    }
    if d >= 1 {
      MulAtLeast(d, l);
    } else if d <= -1 {
      MulAtLeast(-d, l);
    }
  }

  lemma MulAtLeast(d: int, l: nat)
    requires d >= 1
    ensures d * l >= l
  {
    assert d * l - l == (d - 1) * l;
  }

  /**
   * For an animation whose `total_length` is its summed duration and not 0,
   * `get_at_time` never reaches its `panic!()`.
   */
  lemma WellFormedNeverPanics(anim: Animation, time: u32)
    requires anim.totalLength > 0 && anim.totalLength == Sum(anim.frames)
    ensures FrameAtTime(anim, time).Some?
  {
    FrameIndexSpec(anim.frames, time % anim.totalLength);
  }

  function ShiftIndex(o: Option<nat>, k: nat): Option<nat>
  {
    match o
    case None => None
    case Some(i) => Some(i + k)
  }

  /**
   * `Animation::get_at_time`: reduces the time modulo the clip length, then
   * subtracts frame durations until the remaining time falls inside a frame.
   */
  method GetAtTime(anim: Animation, time: u32) returns (r: Option<nat>)
    ensures r == FrameAtTime(anim, time)
    ensures anim.totalLength == 0 ==> r.None?
    ensures anim.totalLength > 0 ==> (r.Some? <==> time % anim.totalLength < Sum(anim.frames))
    ensures anim.totalLength > 0 && r.Some? ==>
              r.value < |anim.frames|
              && Sum(anim.frames[..r.value]) <= time % anim.totalLength < Sum(anim.frames[..r.value + 1])
  {
    if anim.totalLength == 0 {
      // `time %= self.total_length` divides by zero
      return None;
    }
    var t: nat := time % anim.totalLength;
    ghost var x := t;
    FrameIndexSpec(anim.frames, x);
    var frames := anim.frames;
    var i := 0;
    while i < |frames|
      invariant 0 <= i <= |frames|
      invariant FrameIndex(frames, x) == ShiftIndex(FrameIndex(frames[i..], t), i)
    {
      assert frames[i..][1..] == frames[i + 1..];
      if t >= frames[i].duration {
        t := t - frames[i].duration;
      } else {
        return Some(i);
      }
      i := i + 1;
    }
    // the loop ran out of frames: `panic!()`
    return None;
  }
}
