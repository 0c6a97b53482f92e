# PyImgMosaic tile selection in Dafny

PyImgMosaic rebuilds a target picture as a mosaic of small tile pictures. This project models its tile-selection engine:

- `rank_image`, which gives an image's colour signature: the floor mean of each channel.
- `pxl_dist`, the Euclidean distance between two colours.
- `best_match`, which scans the pool of available tiles for the closest colour. When the best distance is over the error threshold, it puts every used tile back and scans again. When that fails too, it gives up.
- The main block's grid phase. It cuts the target down to whole tiles, then sweeps the cells with x outer and y inner. For each cell it ranks the region, picks a match and withdraws it from the pool.

Modules, one per file:

- `Wrappers`: `Option`.
- `Colour`: pixels, images, crop and `rank_image`.
- `Distance`: `pxl_dist` as an integer squared distance.
- `Pool`: the two dictionaries `tiles` and `discarded`. It has the scan and `best_match` as specification functions and the class `TilePool`, whose methods change the dictionaries in place.
- `Mosaic`: truncation, the sweep's boxes, the sweep as a fold (`Run`) and the nested loops as methods proved against it.

Modelling choices:

- A Python dictionary is a sequence of its items in enumeration order. Python 2 leaves that order open, so "ties go to the earliest item" is stated relative to the sequence.
- `tiles.update(discarded)` appends `discarded` to `tiles`. The keys of the two are disjoint, which is the pool invariant `WellFormed`.
- `sqrt` is not modelled. The model compares squared distances with the square of each value the code compares the distance with.
  - `Distance.SquaresPreserveOrder` shows that `score < err` keeps its outcome.
  - `Distance.ExceedsIsThresholdTest` shows the same for `err > threshold`. A negative threshold is always exceeded.
  - `Distance.BelowInitialErr` shows the same for the initial `err = 1e9`.
- `exit()` in `best_match` becomes a `None` match. The sweep then stops and reports `ok = false`. The pool is left as the call left it, which is replenished.
- The output canvas is the sequence of pastes (box, tile file name) in the order `out_img.paste` receives them.
- The code has one distance formula and one grid sweep, with no other pass over the canvas. Its failure message carries no values.

## Model

| member | source | states |
|---|---|---|
| Colour.Mean | PyImgMosaic.py:38-48 | the signature rank_image defines: per channel, the sum over all w * h pixels floor-divided by w * h; its properties are the three Mean lemmas below |
| Colour.RegionColour | PyImgMosaic.py:132-134 | rank_image(target.crop(box)): the mean of the cropped region |
| Colour.RankImage | PyImgMosaic.py:38-48 | the nested loops return the channel sums over all w * h pixels, each floor-divided by w * h; the result is an 8-bit colour when every pixel is |
| Colour.MeanIsFloorAverage | PyImgMosaic.py:42-48 | each channel m of the mean satisfies d * m <= sum < d * (m + 1), with d = w * h pixels |
| Colour.MeanInRange | PyImgMosaic.py:38-48 | when every pixel channel is in [0, 255], so is every channel of the mean |
| Colour.MeanOfUniform | PyImgMosaic.py:38-48 | an image whose every pixel is p has signature p |
| Colour.Crop | PyImgMosaic.py:132 | the cropped region has the box's size, its pixel (x, y) is the target's (x0 + x, y0 + y), and it is 8-bit when the target is |
| Distance.SqDist | PyImgMosaic.py:51-55 | the sum of squared channel differences, the square of what pxl_dist returns; the comparison lemmas below justify using it in place of the distance |
| Distance.SqDistSymmetric | PyImgMosaic.py:51-55 | the distance is symmetric |
| Distance.SqDistZeroIff | PyImgMosaic.py:51-55 | the distance is zero exactly when the two colours are equal |
| Distance.SqDistBound | PyImgMosaic.py:51-55 | between 8-bit colours the squared distance is at most 3 * 255^2, below the squared initial err |
| Distance.SquaresPreserveOrder | PyImgMosaic.py:66 | for non-negative distances, d1 < d2 exactly when d1^2 < d2^2, so `score < err` has the same outcome on squares |
| Distance.ExceedsIsThresholdTest | PyImgMosaic.py:69 | for d = sqrt(ssd), `d > threshold` holds exactly when Exceeds(ssd, threshold) |
| Distance.BelowInitialErr | PyImgMosaic.py:61 | for d = sqrt(ssd), `d < 1e9` holds exactly when ssd < 10^18 |
| Pool.WellFormedUnique | PyImgMosaic.py:31-32 | distinct file names across both dictionaries is the same as no item occurring twice and no key shared in the full tile set |
| Pool.WellFormedParts | PyImgMosaic.py:31-32 | the invariant makes each dictionary free of repeated keys and the two key sets disjoint |
| Pool.Withdrawn | PyImgMosaic.py:136-137 | the pool after `discarded.update({k: tiles[k]})` and `del tiles[k]`: the item of k moves from tiles to the end of discarded, the others keep their order |
| Pool.Replenished | PyImgMosaic.py:71-72 | the pool after `tiles.update(discarded)` and `discarded = {}` |
| Pool.WithdrawMoves | PyImgMosaic.py:136-137 | withdrawing a match removes its key from tiles and adds the same item to discarded; the maps stay disjoint and the full tile set is unchanged |
| Pool.ReplenishMerges | PyImgMosaic.py:71-72 | after `tiles.update(discarded)` and `discarded = {}`, the keys of tiles are those of both dictionaries, discarded is empty, and the invariant and full tile set are kept |
| Pool.WithdrawThenReplenish | PyImgMosaic.py:71-72 | a withdrawn tile is available again after a replenishment |
| Pool.Step | PyImgMosaic.py:65-68 | one iteration of the scan: the item becomes the match exactly when its distance is strictly below err |
| Pool.Scan | PyImgMosaic.py:63-68 | the loop `for k, v in tiles.items()` from a given err and match; also the rescan at 73-78, started from the first scan's state |
| Pool.ScanFindsFirstMin | PyImgMosaic.py:63-68 | the scan keeps its start state unless some item is strictly better; otherwise it ends on the first item of minimum distance, so ties go to the earliest |
| Pool.RescanIsFreshScan | PyImgMosaic.py:73-78 | the rescan that starts from the first scan's err and match ends exactly where a fresh scan of the merged pool would |
| Pool.ScanTripsIff | PyImgMosaic.py:69 | a scan from the initial state trips the test `match == None or err > threshold` exactly when no item is usable |
| Pool.ScanNoneIffEmpty | PyImgMosaic.py:61-68 | with 8-bit colours, a scan finds no match exactly when the scanned dictionary is empty |
| Pool.Select | PyImgMosaic.py:57-82 | best_match: first scan, replenishment and a non-resetting rescan when the test trips, and no match where the code calls exit(); its properties are the Select lemmas below |
| Pool.SelectTripsIff | PyImgMosaic.py:69-72 | best_match replenishes exactly when no available tile is within threshold; otherwise both dictionaries are untouched |
| Pool.SelectSucceedsIff | PyImgMosaic.py:79-82 | best_match returns a match exactly when some tile of tiles and discarded together is within threshold; otherwise it gives up |
| Pool.SelectIsFirstMin | PyImgMosaic.py:73-82 | a returned match is the first item of minimum distance among the tiles available after the call, and is within threshold |
| Pool.SelectFailsIff | PyImgMosaic.py:79-82 | with 8-bit colours, best_match fails exactly when every tile of tiles and discarded together is farther than threshold (vacuously, when both are empty) |
| Pool.SelectWinnerIn | PyImgMosaic.py:79-82 | a returned match is a key of tiles after the call |
| Pool.SelectKeepsPool | PyImgMosaic.py:69-72 | best_match keeps the pool invariant and the full tile set |
| Pool.SelectUsable | PyImgMosaic.py:79-82 | a returned match is the file name of a tile of the full tile set that is within threshold |
| Pool.TilePool.constructor | PyImgMosaic.py:104-111 | the pool built from a directory listing of distinct file names has every tile available, none discarded, and satisfies the invariant |
| Pool.TilePool.ScanTiles | PyImgMosaic.py:63-68 | the loop over `tiles.items()` ends in the state given by the scan function |
| Pool.TilePool.BestMatch | PyImgMosaic.py:57-82 | match, trip flag and new dictionaries are those of Select; the dictionaries are unchanged without a trip and merged with one; a match exists exactly when a usable tile exists, and it is the first minimum of tiles and within threshold |
| Pool.TilePool.Withdraw | PyImgMosaic.py:136-137 | `discarded.update({k: tiles[k]})` then `del tiles[k]` removes k from tiles, puts its item into discarded, and keeps the invariant and the full tile set |
| Mosaic.Truncate | PyImgMosaic.py:118-122 | the truncated size m satisfies m <= n, m % t == 0 and n - m < t |
| Mosaic.GridBoxesOrder | PyImgMosaic.py:128-130 | the sweep visits cols * rows boxes, with x outer and y inner: the k-th box is the cell in column k / rows and row k % rows |
| Mosaic.GridBoxesInside | PyImgMosaic.py:128-130 | every box of the sweep lies inside a canvas of cols * t by rows * t pixels |
| Mosaic.Place | PyImgMosaic.py:134-137 | the loop body for one box: best_match on the region's colour, then either the stop (exit()) or the withdrawal of the match and its paste into the box |
| Mosaic.Run | PyImgMosaic.py:128-142 | the sweep over the first n boxes: the loop body applied box by box while best_match keeps succeeding |
| Mosaic.GridPhase | PyImgMosaic.py:117-142 | the truncation and the sweep over every cell of the truncated canvas, x outer and y inner |
| Mosaic.RunFailedStays | PyImgMosaic.py:79-81 | once best_match has given up, no further box changes the outcome |
| Mosaic.RunPlacements | PyImgMosaic.py:128-142 | the pastes go into the boxes in sweep order; the sweep completes exactly when every box is pasted |
| Mosaic.RunKeepsPool | PyImgMosaic.py:134-137 | over the whole sweep the pool keeps its invariant and its full tile set |
| Mosaic.RunPastesUsable | PyImgMosaic.py:132-137 | every paste uses a tile of the library whose colour is within threshold of its region's signature |
| Mosaic.GridPhaseShape | PyImgMosaic.py:117-130 | the grid phase completes exactly when it pastes (w / t) * (h / t) tiles; the k-th is at column k / rows and row k % rows, inside the truncated canvas |
| Mosaic.RankRegion | PyImgMosaic.py:132-134 | rank_image(target.crop(box)) returns the region's signature, which is 8-bit when the target is |
| Mosaic.PlaceBox | PyImgMosaic.py:130-142 | one run of the loop body takes the sweep over the first k boxes to the sweep over the first k + 1 |
| Mosaic.SweepColumn | PyImgMosaic.py:129-142 | the inner loop over y takes the sweep over the first k boxes to the sweep over the first k + rows |
| Mosaic.SweepGrid | PyImgMosaic.py:128-142 | the nested loops end in the state of the sweep over every box of the grid, and keep the pool invariant |
| Mosaic.Compose | PyImgMosaic.py:117-142 | the truncated canvas size and the pastes, success flag and final pool are those of the grid phase |

## Left out

- Reading the tile directory, opening, converting, closing, saving and showing images (PIL), and the `scaler.sh` subprocess are I/O. Images are w x h grids of (r, g, b) triples. The tile library is the constructor's argument: a listing whose file names are distinct.
- `out_img.paste` is recorded as a (box, file name) pair, not as pixels written into a canvas. Nor is reopening the match file modelled.
- Command-line parsing and the usage message are left out. The threshold, whose default is 66, and the tile size are parameters.
- The mode test `im.mode is not 'RGBA' or 'RGB'` is always true, so every image is converted to RGB. The model takes 3-channel triples as given.
- The diagnostic `print` calls are outside the model. The "Tripped error threshold" event is the `tripped` result of `Pool.TilePool.BestMatch`.
- `sqrt` and floating point are replaced by integer squared distances, as described above.
- Global variables are fields of one `TilePool` object passed to the sweep.
- colorView.py is a 3-D visualisation of the palette. Its `rank_image` duplicates the one modelled here, so it is not part of this model.
- Mosaic.Compose: requires a tile size t > 0. With t = 0 the code fails with a division error. With t < 0 the size is rounded up to a multiple of |t|, `range(0, width, t)` is empty, and a blank canvas of that size is saved. The model does not cover either case.
- Colour.RankImage: requires w > 0 and h > 0. The code divides by w * h, and every region it ranks is a non-empty cell.
- Pool.TilePool.Withdraw: requires the key to be in tiles. `tiles[match]` would raise KeyError otherwise, and `best_match`'s matches always are.
- Pool.TilePool.Valid: the pool invariant does not record that tile colours are 8-bit, although every one comes from rank_image. So the 8-bit facts, Pool.ScanNoneIffEmpty and Pool.SelectFailsIff, are stated on the pure model under an explicit requires, not applied to the running pool.
- Pool.TilePool.BestMatch: on failure the code ends the process. The model returns no match and leaves the pool in its replenished state.
