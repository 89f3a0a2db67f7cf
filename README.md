# palcalc colour histogram, in Dafny

palcalc reduces the colours of a set of images to a small palette. Its first stage is
`ColorData`, a colour histogram: a dense 256 x 256 x 256 table of pixel counts with one
cell for every 8-bit RGB triple. `ColorData::new` allocates the table with every cell
at zero. `ColorData::add` opens and decodes an image file, converts it to RGB8, and for
every pixel increments the cell indexed by its `(r, g, b)` bytes.

`colorcalc.dfy` (module `ColorCalc`) models this as a class:

- `ColorData.table` is an `array3<nat>`, 256 in each dimension, standing for the
  nested `Vec<Vec<Vec<u64>>>`; `Rgb` is a pixel whose channels are of type `Byte`
  (0 to 255), so every cell index is in bounds by construction. The verifier checks
  each access `table[c.r, c.g, c.b]` against the table's dimensions.
- The ghost field `Counts` is the histogram as a multiset of colours. `Valid()` ties
  every cell `[r, g, b]` to `Counts[Rgb(r, g, b)]`.
- `Add` takes what the image reader produced: either an `ImageError` (open failed or
  decode failed) or the decoded pixels in enumeration order. It returns `Ok(())` or
  the error, as the source's `Result<()>` does.
- `CellSum` is the sum of all 256^3 cells, taken over red, then green, then blue, as
  the three nested vectors are laid out; `Total()` is that sum for the table.

## Model

| member | source | states |
|---|---|---|
| `ColorCalc.ColorData.constructor` | palcalc/src/colorcalc.rs:9-11 | the new table has 256 entries in each of its three dimensions and every cell is 0; its histogram is empty and the sum of its cells is 0 |
| `ColorCalc.ColorData.Add` | palcalc/src/colorcalc.rs:13-20 | on a reader error, that error is returned and the table is unchanged; on success `Ok` is returned, each cell `[r, g, b]` equals its old value plus the number of decoded pixels of colour `(r, g, b)`, a colour absent from the image keeps its count, no cell decreases, the same table object is kept, and the sum of all cells grows by exactly the number of pixels |
| `ColorCalc.CellSumAdd` | palcalc/src/colorcalc.rs:17 | one increment of any single cell raises the sum of all 256^3 cells by exactly one |
| `ColorCalc.CellSumIsSize` | palcalc/src/colorcalc.rs:15-18 | the sum of all cells of a histogram equals the number of pixels it has counted |
| `ColorCalc.AddEitherOrder` | palcalc/src/colorcalc.rs:13-20 | starting from two distinct tables with the same counts, adding `first` then `second` to one and `second` then `first` to the other gives each the old histogram plus the pixels of both images (none for an image that failed to read), and the two tables end with the same count in every cell |

## Left out

- Opening and decoding the image file (`ImageReader::open`, `decode`, `to_rgb8`): a foreign library; `Add` receives its outcome as an input value, either an error or the sequence of RGB8 pixels.
- The pixel coordinates that `enumerate_pixels` yields beside each colour: the loop ignores them, so the model keeps only the colours, in enumeration order.
- ColorCalc.ColorData.Add: counts are unbounded naturals, so the `u64` overflow of a cell (a panic or wrap after 2^64 increments) is not modelled.
- The error detail carried by `anyhow::Error` is reduced to two cases, `OpenFailed` and `DecodeFailed`.
- palcalc/src/colors.rs (`FloatColor`): floating-point arithmetic with `sqrt`, private and unused.
- palcalc/src/interface.rs: terminal control through crossterm (raw mode, alternate screen, cursor moves, printing).
- palcalc/src/main.rs: prints a styled greeting only.
- This version of palcalc contains no clustering code (no point extraction, seeding or iteration over the histogram), so there is nothing of that kind to model.
