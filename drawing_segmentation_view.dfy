/**
 The overlay view of the segmentation demo. Its colour memo table is the
 table the program constructs every view with (the static `colors`
 dictionary of `DrawingSegmentationView`). Asking the view for the colour of
 a class looks it up and, on a miss, builds and stores it. Drawing paints
 one filled rectangle per cell of the current segmentation map.
 */
module DrawingSegmentation {
  import opened SegmentationColors
  import opened SegmentationPaint

  datatype Option<T> = None | Some(value: T)

  /** The static `colors` dictionary. The program makes one and constructs
      every view with it. */
  class ColorTable {
    var colors: Table

    /** The table as the program starts: classes 0 and 20, both transparent. */
    constructor ()
      ensures colors == InitialTable()
      ensures colors.Keys == {0, 20} && colors[0] == ZeroAlpha && colors[20] == ZeroAlpha
      ensures Coherent(colors)
    {
      colors := InitialTable();
      InitialTableCoherent();
    }
  }

  class DrawingSegmentationView {
    /** The colour table, the one the program constructs every view with. */
    const palette: ColorTable
    /** The map to show; `None` until a result arrives. */
    var segmentationmap: Option<SegmentationMap>
    /** The fills of the last paint pass, in the order they were issued. */
    var canvas: seq<Fill>

    ghost predicate Valid()
      reads this, palette
    {
      Coherent(palette.colors)
    }

    constructor (palette: ColorTable)
      requires Coherent(palette.colors)
      ensures Valid()
      ensures this.palette == palette && segmentationmap == None && canvas == []
    {
      this.palette := palette;
      segmentationmap := None;
      canvas := [];
    }

    /** The colour of class `index`: the stored one on a hit; on a miss the
        hue colour of the index, which is then stored under it. */
    method SegmentationColor(index: int32) returns (color: Color)
      requires Valid()
      modifies palette
      ensures Valid()
      ensures (color, palette.colors) == Lookup(old(palette.colors), index)
      ensures color == Canonical(index)
      ensures index in old(palette.colors) ==> palette.colors == old(palette.colors)
      ensures index !in old(palette.colors) ==> palette.colors == old(palette.colors)[index := color]
    {
      if index in palette.colors {
        color := palette.colors[index];
      } else {
        color := HueColor(index);
        palette.colors := palette.colors[index := color];
      }
      LookupCoherent(old(palette.colors), index);
    }

    /** One paint pass. Without a graphics context nothing happens. Otherwise
        the canvas is cleared; with no map that is all, and with a map every
        cell is filled, row by row, with the colour its class looks up to. */
    method Draw(hasContext: bool)
      requires Valid()
      modifies this`canvas, palette
      ensures Valid()
      ensures !hasContext ==> canvas == old(canvas) && palette.colors == old(palette.colors)
      ensures hasContext && segmentationmap.None? ==>
        canvas == [] && palette.colors == old(palette.colors)
      ensures hasContext && segmentationmap.Some? ==>
        (canvas, palette.colors) == Paint(segmentationmap.value, old(palette.colors))
    {
      if !hasContext {
        return;
      }
      canvas := [];
      if segmentationmap.None? {
        return;
      }
      var g := segmentationmap.value;
      var j := 0;
      while j < g.height
        invariant 0 <= j <= g.height
        invariant Valid()
        invariant (canvas, palette.colors) == PaintRows(g, j, old(palette.colors))
      {
        DrawRow(g, j);
        j := j + 1;
      }
    }

    /** The inner loop of a paint pass: fills the cells of row `j` left to
        right, looking up the colour of each. */
    method DrawRow(g: SegmentationMap, j: nat)
      requires Valid() && j < g.height
      modifies this`canvas, palette
      ensures Valid()
      ensures canvas == old(canvas) + PaintRow(g, j, g.width, old(palette.colors)).0
      ensures palette.colors == PaintRow(g, j, g.width, old(palette.colors)).1
    {
      var i := 0;
      while i < g.width
        invariant 0 <= i <= g.width
        invariant Valid()
        invariant canvas == old(canvas) + PaintRow(g, j, i, old(palette.colors)).0
        invariant palette.colors == PaintRow(g, j, i, old(palette.colors)).1
      {
        var value := g.cells[j][i];
        ghost var done := PaintRow(g, j, i, old(palette.colors));
        var color := SegmentationColor(value);
        canvas := canvas + [Fill(j, i, color)];
        assert PaintRow(g, j, i + 1, old(palette.colors)) == (done.0 + [Fill(j, i, color)], palette.colors);
        i := i + 1;
      }
    }
  }
}
