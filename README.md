# Segmentation overlay: colour memo table and paint pass

This project models the logic core of `DrawingSegmentationView`, the view of
the PyTorch iOS demo that draws a semantic-segmentation result over the camera
image. The view has two parts:

- A colour memo table. This is a static dictionary from an `Int32` class
  index to a colour. It starts with classes 0 and 20 mapped to a fully
  transparent colour. On a miss, `segmentationColor(with:)` builds the colour
  with hue `index/30`, saturation 1, brightness 1 and alpha 1, stores it, and
  returns it. Entries are never removed.
- A paint pass, `draw(_:)`. It clears the context. If a segmentation map is
  set, it visits every cell `(j, i)` of the H×W map in row-major order and
  fills that cell with the colour the table gives its class, which may add
  entries to the table along the way.

The model has three modules:

- `SegmentationColors` (`segmentation_colors.dfy`) holds the colour values,
  the initial table, the lookup-or-insert step `Lookup` as a function on
  tables, and the table invariant `Coherent`. `Coherent` says both seeds are
  present and every entry is the canonical colour of its class.
- `SegmentationPaint` (`segmentation_paint.dfy`) gives the meaning of one
  paint pass as values. `Paint` returns the sequence of fills and the final
  table. It is built from `PaintRows` (the first `j` rows) and `PaintRow`
  (the first `i` cells of one row). The module also proves what a pass does:
  how many fills there are, the row-major position and colour of each fill,
  which keys the table gains, that no existing entry changes, that the table
  stays coherent, and that repeating a pass changes nothing.
- `DrawingSegmentation` (`drawing_segmentation_view.dfy`) is the imperative
  part. `ColorTable` is the static dictionary. Every view is constructed
  with the same `ColorTable` object and reaches it through its `palette`
  field. `DrawingSegmentationView` has
  the mutating `SegmentationColor` method and the looping `Draw` method,
  whose inner loop is `DrawRow`; it appends each fill to the `canvas`
  sequence. These methods are proved against `Lookup` and `Paint`.

Colours are abstract values, not floats. The transparent colour is
`RGBA(0, 0, 0, 0)`. A miss builds `HSBA(index, 30, 1, 1, 1)`, which keeps
the hue as the rational `index/30`. Class indices use the newtype `int32`,
which has Swift's `Int32` range. Cell positions are whole numbers: a fill
records `(row, column, colour)`.

The graphics context, `UIGraphicsGetCurrentContext()`, is outside the model.
Whether there is one is the parameter `hasContext` of `Draw`. When there is
one, `ctx.clear(rect)` is modelled as emptying `canvas`.

## Model

| member | source | states |
|---|---|---|
| `SegmentationColors.InitialTable` | ios-demo-app/PyTorchDemo/PyTorchDemo/ImageClassification/DrawingSegmentationView.swift:15-16 | before any lookup the table holds exactly classes 0 and 20, both mapped to the zero-alpha colour |
| `SegmentationColors.HueColor` | ios-demo-app/PyTorchDemo/PyTorchDemo/ImageClassification/DrawingSegmentationView.swift:23-24 | the colour built on a miss is opaque (alpha 1), so never the transparent seed colour, with hue `index/30`: `HSBA(index, 30, 1, 1, 1)` |
| `SegmentationColors.InitialTableCoherent` | ios-demo-app/PyTorchDemo/PyTorchDemo/ImageClassification/DrawingSegmentationView.swift:15-16 | the initial table satisfies the table invariant: seeds present and every entry canonical |
| `SegmentationColors.Canonical` | ios-demo-app/PyTorchDemo/PyTorchDemo/ImageClassification/DrawingSegmentationView.swift:15-27 | the colour a class is shown with is transparent (alpha 0) exactly for classes 0 and 20; for every other class it is the hue colour with hue index/30 |
| `SegmentationColors.Lookup` | ios-demo-app/PyTorchDemo/PyTorchDemo/ImageClassification/DrawingSegmentationView.swift:18-29 | a hit returns the stored colour and leaves the table unchanged; a miss returns the hue colour (alpha 1) and stores it under the index; afterwards the index maps to the returned colour, the key set grows by at most that index, and no other entry changes |
| `SegmentationColors.LookupCoherent` | ios-demo-app/PyTorchDemo/PyTorchDemo/ImageClassification/DrawingSegmentationView.swift:18-29 | on a coherent table a lookup returns the canonical colour of the index, so the colour depends on the index alone, and the table stays coherent |
| `SegmentationColors.LookupIdempotent` | ios-demo-app/PyTorchDemo/PyTorchDemo/ImageClassification/DrawingSegmentationView.swift:19-20 | a second lookup of the same index returns the same colour and leaves the table as the first lookup left it |
| `SegmentationColors.SeededAlwaysTransparent` | ios-demo-app/PyTorchDemo/PyTorchDemo/ImageClassification/DrawingSegmentationView.swift:16-20 | on a coherent table, classes 0 and 20 always give the transparent colour, never a hue colour, and their lookup never changes the table |
| `SegmentationColors.LookupExtends` | ios-demo-app/PyTorchDemo/PyTorchDemo/ImageClassification/DrawingSegmentationView.swift:18-29 | after any series of lookups from a table `t`, the next lookup returns the colour `t` itself gives the index, and the table still only extends `t` |
| `SegmentationColors.ExtendsCoherent` | ios-demo-app/PyTorchDemo/PyTorchDemo/ImageClassification/DrawingSegmentationView.swift:16-29 | every table reached by lookups from a coherent table is coherent |
| `SegmentationPaint.PaintRow` | ios-demo-app/PyTorchDemo/PyTorchDemo/ImageClassification/DrawingSegmentationView.swift:52-61 | the fills of the first `i` cells of row `j` and the table after their lookups; every fill lies in row `j`, in one of the first `i` columns |
| `SegmentationPaint.PaintRows` | ios-demo-app/PyTorchDemo/PyTorchDemo/ImageClassification/DrawingSegmentationView.swift:51-62 | the fills of the first `j` rows, each row painted from the table the rows above left; every fill lies in one of the first `j` rows, inside the grid width |
| `SegmentationPaint.Paint` | ios-demo-app/PyTorchDemo/PyTorchDemo/ImageClassification/DrawingSegmentationView.swift:51-62 | a whole pass over all rows of the map; no fill lies outside the grid |
| `SegmentationPaint.PaintRowLength` | ios-demo-app/PyTorchDemo/PyTorchDemo/ImageClassification/DrawingSegmentationView.swift:52-61 | painting the first `i` cells of a row issues exactly `i` fills |
| `SegmentationPaint.PaintRowCell` | ios-demo-app/PyTorchDemo/PyTorchDemo/ImageClassification/DrawingSegmentationView.swift:52-60 | the `k`-th fill of a row is cell `(j, k)`, painted with the colour the starting table gives `cells[j][k]` |
| `SegmentationPaint.PaintRowExtends` | ios-demo-app/PyTorchDemo/PyTorchDemo/ImageClassification/DrawingSegmentationView.swift:52-57 | painting part of a row keeps every earlier key and entry, and adds only hue colours |
| `SegmentationPaint.PaintRowKeys` | ios-demo-app/PyTorchDemo/PyTorchDemo/ImageClassification/DrawingSegmentationView.swift:52-57 | painting part of a row adds exactly the classes of the cells visited to the table's keys |
| `SegmentationPaint.PaintRowsLength` | ios-demo-app/PyTorchDemo/PyTorchDemo/ImageClassification/DrawingSegmentationView.swift:51-62 | painting the first `j` rows issues `Offset(width, j, 0)` fills, which `OffsetIsProduct` equates with `j`·width |
| `SegmentationPaint.PaintRowsExtends` | ios-demo-app/PyTorchDemo/PyTorchDemo/ImageClassification/DrawingSegmentationView.swift:51-57 | painting the first `j` rows keeps every earlier entry and adds only hue colours |
| `SegmentationPaint.PaintRowsKeys` | ios-demo-app/PyTorchDemo/PyTorchDemo/ImageClassification/DrawingSegmentationView.swift:51-57 | painting the first `j` rows adds exactly the classes met to the table's keys |
| `SegmentationPaint.PaintRowsCell` | ios-demo-app/PyTorchDemo/PyTorchDemo/ImageClassification/DrawingSegmentationView.swift:51-60 | in the first `j` rows, cell `(jj, k)` is the fill at row-major position `Offset(width, jj, k)` (`jj`·width+`k` by `OffsetIsProduct`), painted with the colour the starting table gives its class |
| `SegmentationPaint.PaintRowsLastRowCell` | ios-demo-app/PyTorchDemo/PyTorchDemo/ImageClassification/DrawingSegmentationView.swift:51-60 | the cells of row `j-1` come after all fills of the earlier rows, in column order |
| `SegmentationPaint.LastRowColour` | ios-demo-app/PyTorchDemo/PyTorchDemo/ImageClassification/DrawingSegmentationView.swift:52-60 | row `j-1`, painted after the rows above it, gives cell `k` the colour the starting table gives its class |
| `SegmentationPaint.OffsetIsProduct` | ios-demo-app/PyTorchDemo/PyTorchDemo/ImageClassification/DrawingSegmentationView.swift:51-52 | the row-major position of cell `(j, i)` is `j`·width+`i` |
| `SegmentationPaint.OffsetOrder` | ios-demo-app/PyTorchDemo/PyTorchDemo/ImageClassification/DrawingSegmentationView.swift:51-52 | row-major positions are below H·W, distinct for distinct cells, and ordered rows first (j outer), then columns (i inner) |
| `SegmentationPaint.RowsValuesCells` | ios-demo-app/PyTorchDemo/PyTorchDemo/ImageClassification/DrawingSegmentationView.swift:51-53 | the classes collected over the first `j` rows are exactly the values of their cells |
| `SegmentationPaint.ValuesCells` | ios-demo-app/PyTorchDemo/PyTorchDemo/ImageClassification/DrawingSegmentationView.swift:51-53 | a class is in the map's class set exactly when some cell holds it |
| `SegmentationPaint.PaintLength` | ios-demo-app/PyTorchDemo/PyTorchDemo/ImageClassification/DrawingSegmentationView.swift:51-62 | a pass over an H×W map issues exactly H·W fills |
| `SegmentationPaint.PaintCells` | ios-demo-app/PyTorchDemo/PyTorchDemo/ImageClassification/DrawingSegmentationView.swift:51-60 | a pass issues H·W fills, and every cell `(j, i)` with 0≤j<H and 0≤i<W is filled at position `j`·W+`i` with the colour the starting table gives `map[j, i]` |
| `SegmentationPaint.OffsetCovers` | ios-demo-app/PyTorchDemo/PyTorchDemo/ImageClassification/DrawingSegmentationView.swift:51-52 | every position below the start of row `j` is the row-major position of some cell of an earlier row |
| `SegmentationPaint.PaintOnce` | ios-demo-app/PyTorchDemo/PyTorchDemo/ImageClassification/DrawingSegmentationView.swift:51-60 | two fills of a pass with the same row and column are the same fill, so with `PaintCells` every cell is filled exactly once |
| `SegmentationPaint.PaintTable` | ios-demo-app/PyTorchDemo/PyTorchDemo/ImageClassification/DrawingSegmentationView.swift:51-57 | after a pass every class in the map is a key of the table; no other key was added; earlier entries are unchanged; each new entry is the hue colour of its class |
| `SegmentationPaint.PaintCoherent` | ios-demo-app/PyTorchDemo/PyTorchDemo/ImageClassification/DrawingSegmentationView.swift:51-60 | from a coherent table every cell is painted with the canonical colour of its class, and the table stays coherent |
| `SegmentationPaint.PaintRowSameResolve` | ios-demo-app/PyTorchDemo/PyTorchDemo/ImageClassification/DrawingSegmentationView.swift:52-60 | painting a row depends only on the colours the table gives, not on which of them are already stored |
| `SegmentationPaint.PaintRowsSameResolve` | ios-demo-app/PyTorchDemo/PyTorchDemo/ImageClassification/DrawingSegmentationView.swift:51-60 | the same for the first `j` rows |
| `SegmentationPaint.PaintAgain` | ios-demo-app/PyTorchDemo/PyTorchDemo/ImageClassification/DrawingSegmentationView.swift:51-62 | painting the same map again gives the same fills and leaves the table unchanged |
| `DrawingSegmentation.ColorTable.constructor` | ios-demo-app/PyTorchDemo/PyTorchDemo/ImageClassification/DrawingSegmentationView.swift:15-16 | the table every view is constructed with starts as the initial table, holding classes 0 and 20 mapped to transparent, and is coherent |
| `DrawingSegmentation.DrawingSegmentationView.constructor` | ios-demo-app/PyTorchDemo/PyTorchDemo/ImageClassification/DrawingSegmentationView.swift:31 | a new view keeps the given (coherent) table as its palette, has no segmentation map and an empty canvas |
| `DrawingSegmentation.DrawingSegmentationView.SegmentationColor` | ios-demo-app/PyTorchDemo/PyTorchDemo/ImageClassification/DrawingSegmentationView.swift:18-29 | the returned colour and the table after the call are what `Lookup` gives for the table before it; the table is unchanged on a hit and gains `index := color` on a miss; the colour is the canonical one; the invariant holds |
| `DrawingSegmentation.DrawingSegmentationView.Draw` | ios-demo-app/PyTorchDemo/PyTorchDemo/ImageClassification/DrawingSegmentationView.swift:37-64 | without a context nothing changes; with no map the canvas is cleared and the table is untouched; with a map the canvas and the table are exactly `Paint` of the map from the old table |
| `DrawingSegmentation.DrawingSegmentationView.DrawRow` | ios-demo-app/PyTorchDemo/PyTorchDemo/ImageClassification/DrawingSegmentationView.swift:52-61 | the inner loop appends the fills of row `j` to the canvas and leaves the table as `PaintRow` says |

## Left out

- `ImageClassificationViewController.swift`: camera session control, Vision face-landmark requests, layer drawing, main-queue dispatch and alerts are platform glue. Its one rule, the 500 ms frame throttle, compares floating-point media-clock seconds inside a camera callback.
- Cell geometry (`w = width / W`, `CGFloat(i) * w`) and the actual `setFill` / `UIRectFill` rendering are floating point and UIKit calls. A fill is recorded by its integer cell coordinates instead.
- The floating-point value of `CGFloat(index) / CGFloat(30)`, and how `UIColor` treats a hue outside [0, 1] (negative indices, indices of 30 and above). That behaviour belongs to UIKit. The hue is kept as the rational `index/30`.
- `print(index)` on a miss is console output.
- The `didSet` observer on `segmentationmap` that calls `setNeedsDisplay()` is UI scheduling. The model's `segmentationmap` is a plain field.
- `SegmentationResultMLMultiArray` is not part of this model. The map is an H×W grid of `int32` values whose rows all have the declared width. Converting an element with `.int32Value` is not modelled: the cells already hold `int32`.
- `Draw`: the `rect` argument and `ctx.clear(rect)` are modelled as clearing the whole canvas. Partial redraws of a sub-rectangle are not modelled.
- `DrawingSegmentationView.SegmentationColor`: its requirement `Valid()` is the class invariant. Every constructor establishes it and every method keeps it, since only this method changes the table. The source makes no such demand. It is stated so that the method can promise the canonical colour.
- `DrawingSegmentation.ColorTable`: the model does not enforce a single shared table. `new ColorTable()` may be called more than once, each time starting again from classes {0, 20}, and a view may be constructed with any coherent table. In the source the static `colors` dictionary exists once per process and is seeded once. Colours are unaffected, since every coherent table gives the canonical colour, but two tables may hold different key sets.
- Thread confinement is not modelled. The table is accessed only on the UI thread, so the model is sequential.
