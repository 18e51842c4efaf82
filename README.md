# Identicon generator of the favicon extension

This project models the deterministic identicon generator in `content-script.js`, and proves properties of the model. The generator draws a favicon for pages that have none. It runs in three stages.

1. `xfnv1a` hashes the seed string to a 32-bit word. It is FNV-1a over UTF-16 code units, with offset basis 2166136261 and prime 16777619.
2. `mulberry32` turns the hash into a stream of pseudo-random draws. Its only state is one 32-bit word `a`, held in a closure.
3. `generateIdenticonDataUrl` takes the colour from three draws, as hue, saturation and lightness. It then decides a 5 x 5 grid from 15 more draws and paints it on a size-by-size canvas. Columns 3 and 4 mirror columns 1 and 0.

## Modules

| file | module | contents |
|---|---|---|
| `words.dfy` | `Words` | JavaScript 32-bit integers as `bv32` words, code units as `bv16` |
| `fnv.dfy` | `Fnv` | the hash: a reference definition, the folding laws and the loop method |
| `mulberry.dfy` | `Mulberry` | the output mixer, the state sequence, and a `Generator` class whose `Next` method updates the state field in place |
| `canvas.dfy` | `Canvas` | rectangles, and `fillRect`/`clearRect` on an `array2<bool>` pixel mask |
| `identicon.dfy` | `Identicon` | the colour, the cell geometry, the grid, the painting loops and the whole generation |

## Modelling assumptions

- **32-bit words.** `Math.imul`, the `+` feeding a bitwise operator, `^`, `|` and `>>>` are `bv32` operations. `>>>` is the logical shift `>>`.
- **Draws.** A draw is the word `u` that `mulberry32` returns before its division by 2^32. `rand() > 0.5` becomes `u > 2^31`. `Math.floor(rand() * n)` becomes `(u * n) / 2^32`. Both are exact: `AboveHalf` and `ScaleIsFloor` prove that these integer forms equal the real-number expressions.
- **Padding.** `Math.floor(cell * 0.1)` is `cell / 10`.
- **Canvas.** The canvas is a size-by-size boolean mask, painted or clear. `canvas[px, py]` is column `px`, row `py`. Every `fillRect` paints its rectangle, clipped to the canvas. The pixels it covers are stated through the list of squares passed to `fillRect`, in call order (`FillCalls`).
- **Ghost bookkeeping.** The generator's seed, its call count and the words drawn so far are ghost bookkeeping used by the proofs.

## Model

| member | source | states |
|---|---|---|
| Fnv.Step | content-script.js:74-75 | one round: xor the code unit into `h`, then multiply by 16777619 keeping the low 32 bits, as `Math.imul` and `>>> 0` do |
| Fnv.Hash | content-script.js:72-77 | the reference hash: the offset basis 2166136261 for the empty string, otherwise one more round on the hash of all but the last code unit |
| Fnv.Xfnv1a | content-script.js:71-78 | the loop returns `Hash(str)`, the hash defined code unit by code unit; the loop invariant is that after i rounds `h` is the hash of the first i code units |
| Fnv.HashSnoc | content-script.js:73-76 | one more code unit c gives `(hash(s) xor c) * 16777619` mod 2^32 |
| Fnv.HashConcat | content-script.js:73-76 | hashing `s + t` continues from the hash of `s`, folding over `t` front to back |
| Fnv.HashIsFold | content-script.js:72-76 | the hash is the left fold of the round over the code units, starting from the offset basis |
| Fnv.GoldenHashes | content-script.js:72-77 | the empty string hashes to 2166136261; "example.com" hashes to 0x431CEB26 |
| Mulberry.Mix | content-script.js:84-86 | the output word for advanced state `a`: `t = imul(a ^ a >>> 15, a \| 1)`, then `t ^= t + imul(t ^ t >>> 7, t \| 61)`, then `(t ^ t >>> 14) >>> 0`, all in 32-bit words with logical shifts |
| Mulberry.StateAt | content-script.js:83 | the state after n calls: the seed plus n times 0x6D2B79F5, mod 2^32 |
| Mulberry.Generator.constructor | content-script.js:81 | a new generator holds the hash as its state and has made no call |
| Mulberry.Generator.Next | content-script.js:82-87 | the state advances by exactly 0x6D2B79F5 mod 2^32; the returned word is appended to the words drawn so far; the generator stays in step with `StateAt`/`Draws`, so the word is `Mix` of the new state |
| Mulberry.StateAtAdd | content-script.js:83 | n calls after m calls leave the state of m + n calls |
| Mulberry.DrawAt | content-script.js:83-86 | call k returns the mix of the state after k + 1 advances, and depends on nothing else |
| Mulberry.Draws | content-script.js:82-87 | the n words the closure returns over its first n calls, in call order: call k returns `Mix` of the state after k + 1 advances |
| Mulberry.DrawsPrefix | content-script.js:82-87 | the first m draws are a prefix of the first n draws: later calls do not change earlier ones |
| Mulberry.GoldenState | content-script.js:83 | sixteen advances from 0x431CEB26 reach 0x15D48A76 |
| Mulberry.GoldenDraws | content-script.js:82-87 | the first three words drawn from 0x431CEB26 are 0x4D6EE84F, 0xA31D6B34 and 0xB6CED4D7 |
| Identicon.SeedText | content-script.js:92 | `seed \|\| ''`: an absent seed is the empty string, a given string its code units |
| Identicon.SeedDraws | content-script.js:92-115 | the 18 words one generation draws: the first 18 draws of the generator seeded with the hash of the seed text |
| Identicon.AboveHalf | content-script.js:86 | the fraction u / 2^32 lies in [0, 1), and it exceeds 0.5 exactly when u > 2^31 |
| Identicon.ScaleIsFloor | content-script.js:95-97 | the integer `Scale(u, n)` equals `Math.floor((u / 2^32) * n)` computed over the reals |
| Identicon.Scale | content-script.js:95-97 | `Scale(u, n)` is the unique r with r * 2^32 <= u * n < (r + 1) * 2^32, and it is below n |
| Identicon.Colour | content-script.js:95-97 | built from draws 1, 2 and 3: hue in [0, 360), saturation in [60, 80), lightness in [40, 60) |
| Identicon.ColourOfPrefix | content-script.js:95-97 | the colour depends on the first three draws only |
| Identicon.ChooseColour | content-script.js:95-97 | takes exactly three draws from the generator and returns the colour of those three words, in order |
| Identicon.CellSize | content-script.js:108 | the cell is the least c with size <= 5c, i.e. `Math.ceil(size / 5)` |
| Identicon.Padding | content-script.js:109 | the padding is the largest p with 10p <= cell |
| Identicon.Side | content-script.js:119-120 | padding + side + padding is the cell, and the side is positive for a positive cell |
| Identicon.GeometryPositive | content-script.js:108-120 | for size >= 1: cell >= 1, side >= 1, and twice the padding is less than the cell |
| Identicon.SinglePixelGeometry | content-script.js:104-120 | size 1 gives cell 1, padding 0, and the square (0, 0, 1, 1) |
| Identicon.CellOfIsDiv | content-script.js:117-118 | the cell index and in-cell offset of a pixel are its Euclidean quotient and remainder by the cell size |
| Identicon.CellRect | content-script.js:117-120 | the square of cell (x, y): corner `(x*cell + padding, y*cell + padding)`, width and height `cell - 2*padding` |
| Identicon.InCellRect | content-script.js:117-121 | a pixel is in the square of cell (x, y) exactly when it lies in that cell and is clear of the padding on both axes |
| Identicon.CellRectInsideCell | content-script.js:117-121 | every pixel of a cell's square lies in `[x*cell, (x+1)*cell) x [y*cell, (y+1)*cell)` |
| Identicon.CellRectsDisjoint | content-script.js:117-124 | squares of distinct cells share no pixel |
| Identicon.SourceColumn | content-script.js:113-123 | the drawn column that decides column x: x itself for x < 3, else 4 - x |
| Identicon.Filled | content-script.js:113-116 | grid cell (x, y) is filled when grid draw 5 * SourceColumn(x) + y, taken x outer and y inner, is above one half |
| Identicon.Strokes | content-script.js:116-124 | the `fillRect` squares of grid draw k: cell (k / 5, k % 5) and then its mirror (4 - k / 5, k % 5) when the draw is above one half, none otherwise |
| Identicon.FillCalls | content-script.js:113-124 | the squares passed to `fillRect`, in call order, after a run of grid draws |
| Identicon.FilledMirror | content-script.js:113-124 | cell (x, y) of the grid is filled exactly when cell (4 - x, y) is |
| Identicon.MiddleColumnRepaint | content-script.js:121-124 | in column 2 the mirror square is the square itself, and painting it a second time covers nothing new |
| Identicon.FillCallsSnoc | content-script.js:115-124 | one more grid draw adds its cell's square and its mirror's when it is above one half, and no square otherwise |
| Identicon.PaintedByLast | content-script.js:113-116 | a cell is filled by a run of draws exactly when it is filled by all but the last draw, or by the last |
| Identicon.CoveredByLast | content-script.js:115-124 | the squares of the last draw add exactly the padded-clear pixels of the cells it fills |
| Identicon.CoveredByCalls | content-script.js:113-124 | after any prefix of the grid draws, a pixel is covered exactly when it is clear of its cell's padding and some draw so far filled its cell |
| Identicon.PaintedByAll | content-script.js:113-124 | after all 15 grid draws, the cells filled by some draw are exactly the grid cells marked by the draw for their source column and row |
| Identicon.PaintedPixel | content-script.js:104-124 | after all 15 grid draws, a pixel is painted exactly when its cell is a filled grid cell and it is clear of the padding; every other pixel stays clear |
| Identicon.MirrorSymmetry | content-script.js:117-124 | a pixel of the grid area is painted exactly when the pixel at the same offset in the mirrored cell column is |
| Identicon.FillCellAndMirror | content-script.js:117-124 | the mask after the two `fillRect` calls is the mask of the earlier squares plus the cell's square and its mirror's |
| Identicon.DrawCell | content-script.js:115-124 | one draw for cell (x, y): it takes exactly one word, and the mask becomes the squares of the grid draws so far including this one |
| Identicon.DrawBlocks | content-script.js:113-127 | the nested loops take exactly 15 draws, x outer and y inner, and paint exactly the squares `FillCalls` lists |
| Identicon.GenerateIdenticon | content-script.js:91-127 | the 18 draws are the generator's draws from the seed's hash; the colour comes from the first 3; each canvas pixel is painted exactly when the squares of the last 15 cover it |
| Identicon.RegenerateMatches | content-script.js:92-93 | two generations from seeds with the same text give the same colour and the same pixels; an absent seed counts as the empty string |
| Identicon.ExampleDraws | content-script.js:92-115 | for "example.com", the three colour draws and the draw for the middle cell |
| Identicon.GoldenColour | content-script.js:92-97 | for "example.com", the colour is hsl(108 72% 54%) |
| Identicon.GoldenCentre | content-script.js:104-124 | for "example.com" at size 64: cells of 13 pixels with padding 1, and pixel (32, 32) of the middle cell is painted |
| Identicon.EmptySeedSinglePixel | content-script.js:92-116 | for any seed whose text is empty (the empty string or an absent seed) at size 1, the first grid draw is 0x698B9526, below one half, so the single pixel stays clear |
| Identicon.SinglePixelCanvas | content-script.js:104-124 | for the empty seed at size 1, the single pixel is painted exactly when the first grid draw is above one half |
| Canvas.PaintRect | content-script.js:104 | `clearRect`/`fillRect`: pixels inside the rectangle take the new value; every other pixel keeps its value; the rectangle is clipped to the canvas |
| Canvas.CoveredSnoc | content-script.js:121-124 | painting one more rectangle adds exactly the pixels it contains |
| Canvas.CoveredIff | content-script.js:121-124 | a pixel is covered by a list of rectangles exactly when one of them contains it |
| Canvas.RepaintIdempotent | content-script.js:121-124 | painting the same rectangle twice in a row covers nothing more than painting it once |

## Left out

- The DOM, network, asynchronous and timer functions of `content-script.js`:
  - `pageHasFavicon`, `remoteFaviconExists`, `injectFavicon` and `ensureFavicon`;
  - the history hooks and the `MutationObserver`.
- The `fg` string (line 98) and the browser's HSL to RGB conversion: the model stops at the (hue, saturation, lightness) triple.
- `canvas.toDataURL` (line 129) and the PNG encoding: the model stops at the painted-pixel mask.
- Floating point is replaced by the exact integer forms above.
- JavaScript never truncates the closure state `a` (line 83). It is kept mod 2^32 here. Every later bitwise operation reduces it mod 2^32 anyway, and it stays far below 2^53 for 18 calls.
- Seeds are strings of UTF-16 code units, or `Absent` for a falsy non-string value such as `undefined` (line 92). Other non-string seeds are not modelled.
- Sizes are natural numbers. Negative or fractional sizes are not modelled.
- A size of 0 or less is not rejected with an error. The code has no such check. In this model, size 0 gives an empty canvas after the same 18 draws.
- Mulberry.Generator.Next: the ensures does not say `u == Mix(a)` directly. That fact follows from its invariant `Valid` and `DrawAt`. Stating it as its own postcondition would make every caller's proof unfold the 32-bit multiplications of `Mix`.
