# Jigsaw puzzle: a verified model

This project models the core of a Swing jigsaw puzzle game.

- **Loading.** The game cuts an image into an `M` x `N` lattice of pieces, 90 by 60 pixels each at least. It links each piece to its neighbours. It carves a round tab into every inner side, by moving a disc of pixels from one piece's buffer into the neighbour's.
- **Playing.** The player presses on a piece, which selects the piece's whole group, and drags the group around. On release, every selected piece's neighbour that lies within 10 pixels of its place on both axes snaps into place, together with its group, and the two groups merge.
- **Groups.** A union-find forest over piece ids holds the groups. Path compression happens in `find`.
- **Progress and end.** Counting the joined neighbour links gives the progress. The game is over when every piece shares one root.

The model follows the integer form of the source:

- A piece is identified by its id `i * N + j`, where `i` is the column and `j` the row. Piece.java calls these `row` and `col`.
- The union-find parent of each piece is an `int` array.
- Each piece has four neighbour slots: left, right, above and below. Each slot holds an optional id.
- Each random number loading draws is a parameter (`Loading.Draws`). `Loading.Drawn` restricts the tab offset to [-14, 13] and the tab radius to [8, 14], the ranges their formulas yield. The starting positions are left unconstrained, although the formula at Puzzle.java:198-199 yields values in [100, screen size / 2 + 100).
- Picture buffers are `array2<int>` of ARGB values, with `-1` for a transparent pixel. Proofs read them through `Raster.Snapshot` as `seq<seq<int>>`.
- `-1` is also the ARGB value of opaque white (`0xFFFFFFFF`). A white image pixel is therefore treated as transparent by `transfer`, by `updateImage` and by the hit test, in the source as in the model.
- Java `int` arithmetic is modelled by `Arith.JavaDiv` / `Arith.JavaRem`. These truncate toward zero, and they are used where an operand could be negative.

The modules follow the program:

- `Grid`: the boundary tables, the id arithmetic and the neighbour slots.
- `Raster`: picture buffers, the tab transfer as a function, and visible-pixel counting.
- `Pieces`: `Piece.java`.
- `Loading`: `transfer` and the three phases of `loadImage`.
- `UnionFind`: the forest and its roots.
- `Snap`: the release pass and the progress count, as functions.
- `Game`: the `Puzzle` class with its mouse handlers, and `Open`.

The state the source changes in place is modelled as classes and arrays:

- `Pieces.Piece` has array pictures.
- `Game.Puzzle` has `x`, `y`, `selected` and `parent` arrays.

Each method is proved against a function of the old state. Lemmas about those functions state what the game promises.

## Model

| member | source | states |
|---|---|---|
| Grid.Boundary | Puzzle/Puzzle.java:176-181 | a boundary `dim * i / count` always lies within the image, between 0 and `dim` |
| Grid.BoundaryEnds | Puzzle/Puzzle.java:176-181 | the first boundary is 0 and the last is the full image width (height), so the cells cover the image exactly |
| Grid.BoundaryMonotone | Puzzle/Puzzle.java:176-181 | boundaries never decrease, so no cell has negative size |
| Grid.BoundaryGap | Puzzle/Puzzle.java:176-181 | neighbouring boundaries are at least `dim / count` apart |
| Grid.CellAtLeastUnit | Puzzle/Puzzle.java:165-166 | with `count = dim / 90` (or `/ 60`) each cell is at least 90 (60) pixels wide (high) |
| Grid.BoundaryExample | Puzzle/Puzzle.java:177 | a 100-pixel image in 3 columns has boundaries 0, 33, 66, 100 (integer division) |
| Grid.Table | Puzzle/Puzzle.java:172-181 | the table has `count + 1` entries, entry `i` being boundary `i` |
| Grid.TableSpaced | Puzzle/Puzzle.java:165-181 | the loaded tables start at 0, end at the image size and have every cell at least one unit wide |
| Grid.Boundaries | Puzzle/Puzzle.java:172-181 | the filling loop produces a fresh array equal to the table: it starts at 0, ends at `dim` and is non-decreasing |
| Grid.Coordinates | Puzzle/Puzzle.java:197 | an id decomposes into a column `k / N` and a row `k % N` in range, and moving right or down from an inner piece stays on the lattice |
| Grid.IdCoordinates | Puzzle/Puzzle.java:197 | id `i * N + j` lies on the lattice and gives back column `i` and row `j` |
| Grid.LastColumn | Puzzle/Puzzle.java:212 | a piece in the last column has no piece to its right |
| Grid.Neighbor | Puzzle/Puzzle.java:212-235 | a slot's neighbour, if any, is another piece of the lattice |
| Grid.Slots | Puzzle/Puzzle.java:212-235 | the four slots of a piece are its left, right, upper and lower neighbours |
| Grid.Opposite | Puzzle/Puzzle.java:214-227 | the opposite slot is the other slot on the same axis |
| Grid.BackLinkRight | Puzzle/Puzzle.java:213-215 | the right neighbour links back through its left slot |
| Grid.BackLinkLeft | Puzzle/Puzzle.java:213-215 | the left neighbour links back through its right slot |
| Grid.BackLinkDown | Puzzle/Puzzle.java:225-227 | the lower neighbour links back through its upper slot |
| Grid.BackLinkUp | Puzzle/Puzzle.java:225-227 | the upper neighbour links back through its lower slot |
| Grid.NeighborBackLink | Puzzle/Puzzle.java:212-235 | every link is answered by a link back through the opposite slot |
| Grid.NeighborSymmetric | Puzzle/Puzzle.java:212-235 | `k` holds `q` in a slot if and only if `q` holds `k` in the opposite slot |
| Grid.BorderSlots | Puzzle/Puzzle.java:212-235 | a slot is empty exactly on the matching border: the first or last column, or the top or bottom row |
| Grid.SlotStep | Puzzle/Puzzle.java:460-461 | slot position `4 * k + s` names piece `k`, slot `s` |
| Grid.SlotsFilled | Puzzle/Puzzle.java:497-503 | a piece has at most four neighbours |
| Grid.SlotsSides | Puzzle/Puzzle.java:212-235 | the filled slots of a piece number its inner sides |
| Grid.FlankSumIs | Puzzle/Puzzle.java:170 | the inner sides along one line of `m` pieces sum to the closed form |
| Grid.ColumnSidesIs | Puzzle/Puzzle.java:170 | the inner sides of the first `j` pieces of a column sum to the closed form |
| Grid.GridSidesIs | Puzzle/Puzzle.java:170 | the inner sides of the first `i` columns sum to the closed form |
| Grid.AllSides | Puzzle/Puzzle.java:170 | all inner sides of the lattice are twice `totalConnections = N * (M - 1) + M * (N - 1)`: each link is counted from both ends |
| Grid.TotalConnections | Puzzle/Puzzle.java:170 | the connection total is never negative on a lattice of at least one piece, and is zero exactly for a single piece |
| Arith.JavaDiv | Puzzle/Piece.java:77 | Java `/` agrees with Euclidean division on non-negative operands and is non-negative when the signs agree |
| Arith.JavaRem | Puzzle/Piece.java:78 | Java `%` agrees with Euclidean remainder on non-negative operands |
| Arith.Abs | Puzzle/Puzzle.java:480 | `Math.abs` is non-negative and equals `v` or `-v` |
| Raster.Snapshot | Puzzle/Puzzle.java:188 | a buffer's contents are a rectangle of its dimensions, pixel for pixel |
| Raster.Hollow | Puzzle/Puzzle.java:336-351 | the donor keeps every pixel outside the disc and is transparent inside it |
| Raster.Fill | Puzzle/Puzzle.java:336-351 | filling keeps the recipient's dimensions and a rectangle stays a rectangle; its pixels are as `Raster.FillPixel` says |
| Raster.FillRow | Puzzle/Puzzle.java:338-349 | one column of the recipient keeps its length |
| Raster.Lands | Puzzle/Puzzle.java:339-347 | a recipient pixel receives a donor pixel exactly when it lies under the disc and the donor pixel it faces is not transparent |
| Raster.LandsInDonor | Puzzle/Puzzle.java:342-347 | the donor pixel a landing reads lies inside the donor buffer, so the source's unchecked array access stays in bounds |
| Raster.FillPixel | Puzzle/Puzzle.java:336-351 | a recipient pixel takes the donor's pixel exactly when it lies under the disc and the donor's pixel is visible; otherwise it is unchanged |
| Raster.HollowVisible | Puzzle/Puzzle.java:344-348 | hollowing removes exactly the donor's visible disc pixels from what it shows |
| Raster.FillVisible | Puzzle/Puzzle.java:342-347 | the recipient shows at most what it showed before plus the moved pixels, shifted to the tab's place |
| Raster.LandedShows | Puzzle/Puzzle.java:342-347 | every moved pixel is visible at its new place in the recipient |
| Raster.LandedOnTransparent | Puzzle/Puzzle.java:336-351 | when the disc lands on the recipient's transparent margin, the moved pixels hit no pixel the recipient showed |
| Raster.TransferConserves | Puzzle/Puzzle.java:336-351 | a transfer onto the margin conserves the number of visible pixels of the two pieces together |
| Raster.HollowCount | Puzzle/Puzzle.java:344-348 | hollowing loses exactly the moved pixels |
| Raster.FillCount | Puzzle/Puzzle.java:342-347 | filling onto transparent pixels gains exactly the moved pixels |
| Raster.ShiftCard | Puzzle/Puzzle.java:347 | moving a set of pixels by an offset keeps its size |
| Raster.HollowKeepsClear | Puzzle/Puzzle.java:344-348 | hollowing leaves transparent columns and rows transparent |
| Raster.FillKeepsColumns | Puzzle/Puzzle.java:342-347 | a fill whose disc lies wholly to one side of some transparent columns leaves them transparent |
| Raster.FillKeepsRows | Puzzle/Puzzle.java:342-347 | a fill whose disc lies wholly above or below some transparent rows leaves them transparent |
| Raster.LandsAcrossColumns | Puzzle/Puzzle.java:336-351 | when the donor is clear on the far side of its centre and the recipient on the near side of its own, every moved pixel lands on a transparent one |
| Raster.LandsAcrossRows | Puzzle/Puzzle.java:336-351 | the same as `Raster.LandsAcrossColumns`, for rows |
| Raster.TotalReplace | Puzzle/Puzzle.java:336-351 | replacing one buffer changes the visible total by the difference of the two buffers' counts |
| Raster.TotalSwap | Puzzle/Puzzle.java:336-351 | replacing two buffers by two with as many visible pixels together keeps the visible total |
| Raster.Zeros | Puzzle/Piece.java:84 | a new `BufferedImage` is all zero pixels |
| Raster.Overlay | Puzzle/Piece.java:90-99 | drawing one buffer over another keeps the dimensions |
| Raster.OverlayShows | Puzzle/Piece.java:90-99 | redrawing the same picture changes nothing, and every visible pixel of the picture shows in the image |
| Raster.Cell | Puzzle/Puzzle.java:186-196 | the buffer of a cell has a margin on every side: the margin is transparent and the inside holds the image's pixels of that cell |
| Raster.CutPicture | Puzzle/Puzzle.java:188-196 | the copying loops produce a fresh buffer whose contents are the cell's buffer |
| Pieces.Piece.constructor | Puzzle/Piece.java:75-85 | a piece keeps its id and picture, takes column `id / N` and row `id % N` with Java division, and its size from the picture. Its image is fresh and all zero |
| Pieces.Piece.UpdateImage | Puzzle/Piece.java:90-99 | the image is the old image with every visible picture pixel drawn over it; on a fresh image it then shows the picture |
| Pieces.Piece.HashCode | Puzzle/Piece.java:102-104 | the hash code is the piece id |
| Pieces.Piece.Equals | Puzzle/Piece.java:107-112 | two pieces are equal exactly when the other is not `null` and their hash codes, the ids, agree |
| Pieces.Piece.EqualsConsistent | Puzzle/Piece.java:102-112 | piece equality by id is reflexive, symmetric and transitive, and equal pieces have equal hash codes |
| Loading.TransferRow | Puzzle/Puzzle.java:338-349 | one pass of the outer loop hollows and fills one more column of the disc |
| Loading.Transfer | Puzzle/Puzzle.java:336-351 | `transfer` leaves the destination hollowed and the source filled from the destination's old disc |
| Loading.Drawn | Puzzle/Puzzle.java:198-199 | one draw of each kind per piece, with the tab offset in [-14, 13] and the tab radius in [8, 14] as `Math.random()` in [0, 1) yields at lines 209-210 |
| Loading.RightTab | Puzzle/Puzzle.java:212-223 | the right-hand tab joins piece `k` and its right neighbour with the drawn radius; piece `k` gives the pixels unless the coin flipped |
| Loading.DownTab | Puzzle/Puzzle.java:224-235 | the lower tab joins piece `k` and the piece below with the drawn radius; piece `k` gives the pixels unless the coin flipped |
| Loading.Move | Puzzle/Puzzle.java:217-233 | a tab changes only its two pieces and keeps every buffer's size |
| Loading.CarveRight | Puzzle/Puzzle.java:212-223 | carving the right side changes only piece `k` and its right neighbour |
| Loading.CarveDown | Puzzle/Puzzle.java:224-235 | carving the lower side changes only piece `k` and the piece below |
| Loading.CarveStep | Puzzle/Puzzle.java:206-237 | visiting piece `k` changes only `k` and its right and lower neighbours |
| Loading.Carving | Puzzle/Puzzle.java:204-239 | carving keeps the number and size of all buffers |
| Loading.Cuts | Puzzle/Puzzle.java:183-202 | there is one cut per cell, each roomy enough for a tab on every side |
| Loading.CutPiece | Puzzle/Puzzle.java:186-197 | the new piece has a fresh buffer holding the cell's buffer and the expected id, column, row, size and blank image |
| Loading.CutCell | Puzzle/Puzzle.java:186-197 | the piece cut for id `k` is the cut of its column and row, and shares no buffer with earlier pieces |
| Loading.CutNext | Puzzle/Puzzle.java:185-201 | appending the next piece keeps every piece at its id with its cut |
| Loading.CutColumn | Puzzle/Puzzle.java:185-201 | the inner loop appends the `N` pieces of one column, in row order |
| Loading.CutAll | Puzzle/Puzzle.java:183-202 | the first loop yields pieces in id order, each at its column and row, holding its cell's cut, with separate buffers and blank images |
| Loading.CutDone | Puzzle/Puzzle.java:183-202 | once every cell is cut, the pieces' pictures are the cuts of the image |
| Loading.TablesLattice | Puzzle/Puzzle.java:165-181 | the loaded tables describe a lattice with roomy cells, and neighbouring boundaries are at least 90 pixels apart across and 60 down |
| Loading.Unlinked | Puzzle/Puzzle.java:214-227 | before linking, each of the four neighbour slots that the linking code fills is empty |
| Loading.Couple | Puzzle/Puzzle.java:214-227 | coupling two pieces fills the two facing slots and leaves every other slot alone |
| Loading.Wire | Puzzle/Puzzle.java:212-227 | visiting a piece keeps four slots per piece |
| Loading.LinkedStart | Puzzle/Puzzle.java:204 | before the second loop, no piece is linked |
| Loading.WireSlot | Puzzle/Puzzle.java:212-227 | after visiting piece `k`, each slot holds the links made by the first `k + 1` visits |
| Loading.WireLinks | Puzzle/Puzzle.java:212-227 | visiting `k` extends the linked prefix by one piece |
| Loading.LinkedDone | Puzzle/Puzzle.java:204-239 | after the last visit, every piece's slots are exactly its lattice neighbours |
| Loading.MoveIs | Puzzle/Puzzle.java:336-351 | a hollowed donor and a filled recipient, with all else unchanged, are the tab's move |
| Loading.MoveBetween | Puzzle/Puzzle.java:217-233 | a call of `transfer` between two pieces performs the tab's move on the pictures |
| Loading.RightFits | Puzzle/Puzzle.java:209-223 | the right-hand disc, at any drawn offset and radius, fits inside both buffers |
| Loading.DownFits | Puzzle/Puzzle.java:209-235 | the lower disc, at any drawn offset and radius, fits inside both buffers |
| Loading.TabRight | Puzzle/Puzzle.java:212-223 | the right-hand branch carves the right tab and nothing more |
| Loading.TabDown | Puzzle/Puzzle.java:224-235 | the lower branch carves the lower tab and nothing more |
| Loading.CarveTabs | Puzzle/Puzzle.java:212-235 | one visit carves the right-hand tab and then the lower tab of `k`, and leaves the drawn images as they were |
| Loading.CutRoomy | Puzzle/Puzzle.java:186-188 | every cut piece has room for its tabs |
| Loading.BlankPainted | Puzzle/Puzzle.java:197 | while no piece has been visited, the images are blank |
| Loading.PaintStep | Puzzle/Puzzle.java:206-236 | visiting `k` touches no picture of a piece already drawn, so earlier images still show their final pictures |
| Loading.PaintedShows | Puzzle/Puzzle.java:236 | once every piece has been drawn, every piece shows its picture |
| Loading.Visit | Puzzle/Puzzle.java:206-237 | one visit links piece `k`, carves its right and lower tabs and draws its image, which is now final |
| Loading.VisitNext | Puzzle/Puzzle.java:206-237 | one visit takes the carving, the drawn images and the links from the first `k` pieces to the first `k + 1` |
| Loading.CarvingStep | Puzzle/Puzzle.java:204-239 | the carving of `k + 1` pieces is one visit after the carving of `k` |
| Loading.CarveColumn | Puzzle/Puzzle.java:205-238 | the inner loop visits the `N` pieces of one column |
| Loading.CarveAll | Puzzle/Puzzle.java:204-239 | the second loop leaves the pictures carved, every image drawn and every piece linked to its lattice neighbours |
| Loading.LoadPieces | Puzzle/Puzzle.java:165-239 | loading ends with `M = width / 90` columns and `N = height / 60` rows. It fills the boundary tables and lays out the pieces in id order at their cells, cut and carved and showing their pictures, each linked to its neighbours. The carved pieces show as many pixels together as the cut ones |
| Loading.SideFilled | Puzzle/Puzzle.java:217-222 | a right-hand tab filled into a side margin leaves the top, bottom and opposite side margins as clear as they were |
| Loading.EndFilled | Puzzle/Puzzle.java:229-234 | a lower tab filled into an end margin leaves both side margins and the opposite end margin as clear as they were |
| Loading.MoveConserves | Puzzle/Puzzle.java:336-351 | a tab whose moved pixels all land on transparent ones keeps the number of visible pixels of all pieces together |
| Loading.RightOnto | Puzzle/Puzzle.java:212-223 | when the margins the earlier tabs did not reach are clear, the right-hand tab of `k` fits and lands all its pixels on transparent ones |
| Loading.DownOnto | Puzzle/Puzzle.java:224-235 | when the margins the earlier tabs did not reach are clear, the lower tab of `k` fits and lands all its pixels on transparent ones |
| Loading.RightKeeps | Puzzle/Puzzle.java:212-223 | the right-hand tab of `k`, if there is one, keeps the visible total and reaches only the margins it is carved at |
| Loading.DownKeeps | Puzzle/Puzzle.java:224-235 | the lower tab of `k`, if there is one, keeps the visible total and reaches only the margins it is carved at |
| Loading.StepKeeps | Puzzle/Puzzle.java:206-237 | both tabs of one visit keep the visible total and reach only their own margins |
| Loading.CutsUntouched | Puzzle/Puzzle.java:186-196 | right after cutting, every buffer is at least 90 x 60 pixels inside its margins, and all its margins are transparent |
| Loading.CarvingKeeps | Puzzle/Puzzle.java:204-239 | by induction over the visits: carving the first `k` pieces keeps the visible total and leaves clear every margin no tab has reached yet |
| Loading.CarvingConserves | Puzzle/Puzzle.java:184-239 | carving only moves pixels: after the second loop all pieces together show as many pixels as right after cutting |
| UnionFind.Root | Puzzle/Puzzle.java:394-399 | following parents ends at a root, a piece that is its own parent |
| UnionFind.RootsOf | Puzzle/Puzzle.java:394-399 | the group label of every piece is its root |
| UnionFind.RootIdempotent | Puzzle/Puzzle.java:394-399 | the root of a root is itself |
| UnionFind.RootFixed | Puzzle/Puzzle.java:394-399 | a piece that is its own root is its own parent |
| UnionFind.Join | Puzzle/Puzzle.java:384-386 | merging relabels groups without changing the number of pieces |
| UnionFind.JoinMerges | Puzzle/Puzzle.java:384-386 | after a merge `a` and `b` share a label, pieces that shared a label still do, and every label is old or `b`'s |
| UnionFind.CompressKeepsRoot | Puzzle/Puzzle.java:397 | pointing a piece at its root changes no piece's root |
| UnionFind.Compress | Puzzle/Puzzle.java:397 | path compression keeps the forest well founded and every root unchanged |
| UnionFind.LinkRank | Puzzle/Puzzle.java:385 | linking keeps one rank per piece |
| UnionFind.LinkRoot | Puzzle/Puzzle.java:385 | after hanging root `ra` under root `rb`, each piece's root is its old root, or `rb` if the old root was `ra` |
| UnionFind.Link | Puzzle/Puzzle.java:385 | hanging one root under another keeps the forest well founded and merges exactly those two groups |
| Snap.GridFits | Puzzle/Puzzle.java:204-239 | the loaded layout is well formed and links every piece to its lattice neighbours |
| Snap.Shifted | Puzzle/Puzzle.java:481-487 | moving one group keeps one coordinate per piece |
| Snap.TargetX | Puzzle/Puzzle.java:474 | the target horizontal offset is zero between pieces of one column and one column width for the piece in the next column |
| Snap.TargetY | Puzzle/Puzzle.java:475 | the target vertical offset is zero between pieces of one row and one row height for the piece in the next row |
| Snap.ErrorX | Puzzle/Puzzle.java:470-478 | moving `n` across by the error puts it at its target horizontal offset from `c` |
| Snap.ErrorY | Puzzle/Puzzle.java:471-479 | moving `n` down by the error puts it at its target vertical offset from `c` |
| Snap.Snaps | Puzzle/Puzzle.java:465-480 | pieces that snap are two different pieces, and both errors lie within the tolerance |
| Snap.TrySnap | Puzzle/Puzzle.java:465-489 | one snap test keeps the board's size |
| Snap.TrySnapEffect | Puzzle/Puzzle.java:465-489 | within tolerance and in another group, the neighbour's group moves by the error vector, lands at the lattice offset and merges; otherwise nothing changes. Pieces of one group keep their relative offsets |
| Snap.Step | Puzzle/Puzzle.java:460-490 | one slot of the pass keeps the board's size |
| Snap.Pass | Puzzle/Puzzle.java:457-492 | the release pass keeps the board's size |
| Snap.PassNext | Puzzle/Puzzle.java:457-492 | the pass over `t + 1` slots is one step after the pass over `t` |
| Snap.PassSkips | Puzzle/Puzzle.java:459 | an unselected piece's slots change nothing |
| Snap.StepSkips | Puzzle/Puzzle.java:459 | a slot of an unselected piece changes nothing |
| Snap.PassUnselected | Puzzle/Puzzle.java:457-492 | releasing with nothing selected moves nothing and merges nothing |
| Snap.PassRigid | Puzzle/Puzzle.java:457-492 | pieces of one group stay in one group at the same relative offset through the whole pass |
| Snap.CountLinks | Puzzle/Puzzle.java:495-506 | the joined slots among the first `t` number at most `t` |
| Snap.CountLinksNext | Puzzle/Puzzle.java:497-503 | counting one more slot adds one exactly when that slot is joined |
| Snap.FilledCount | Puzzle/Puzzle.java:497-503 | the filled slots among the first `t` number at most `t` |
| Snap.FilledPiece | Puzzle/Puzzle.java:497-503 | a piece's four slots add its filled ones |
| Snap.FilledSlot | Puzzle/Puzzle.java:497-503 | one slot adds one exactly when it holds a neighbour |
| Snap.FilledColumns | Puzzle/Puzzle.java:170 | in the lattice the filled slots up to a piece are the inner sides so far |
| Snap.FilledColumnStart | Puzzle/Puzzle.java:170 | in the lattice the filled slots of the first `i` columns are their inner sides |
| Snap.FilledRow | Puzzle/Puzzle.java:170 | one more piece of a column adds its inner sides |
| Snap.FilledAll | Puzzle/Puzzle.java:170 | in the lattice all filled slots are all inner sides |
| Snap.WiredSides | Puzzle/Puzzle.java:212-235 | in the lattice a piece's filled slots are its inner sides |
| Snap.CountLinksBound | Puzzle/Puzzle.java:495-506 | joined slots never outnumber filled slots, and are all of them once every piece is in one group |
| Snap.CountFull | Puzzle/Puzzle.java:495-506 | when every filled slot counts as joined, each one is joined |
| Snap.Connections | Puzzle/Puzzle.java:508 | progress `currentConnections` is between 0 and twice the number of pieces |
| Snap.AllJoined | Puzzle/Puzzle.java:356-367 | the solved test: every piece has the group of piece 0 |
| Snap.AllJoinedPairs | Puzzle/Puzzle.java:356-367 | the test against piece 0 holds exactly when every two pieces share a group |
| Snap.LinkedGridJoined | Puzzle/Puzzle.java:356-367 | the lattice is connected: when every link joins its two pieces, all pieces are in one group |
| Snap.ProgressFullIffSolved | Puzzle/Puzzle.java:495-510 | progress `currentConnections` never exceeds `totalConnections`, and equals it exactly when every piece has one root |
| Snap.Dragged | Puzzle/Puzzle.java:280-285 | a drag keeps one coordinate per piece |
| Snap.DragComposes | Puzzle/Puzzle.java:275-288 | two drags are one drag by the summed offset, and selected pieces keep their relative offsets |
| Game.Between | Puzzle/Puzzle.java:413-415 | `between` holds exactly when `v - lo` indexes a buffer of `hi - lo` pixels |
| Game.Scatter | Puzzle/Puzzle.java:198-199 | the pieces start at the drawn positions, unselected, each its own root |
| Game.Puzzle.Assemble | Puzzle/Puzzle.java:162-238 | the puzzle over loaded pieces is valid and keeps their layout; the pieces are placed at the drawn positions, nothing is selected, every piece is its own group, and progress is zero |
| Game.Open | Puzzle/Puzzle.java:155-239 | an image under one cell wide or high loads nothing. Otherwise the puzzle holds the image's pieces, loaded from the image before the call, at their drawn positions, unselected, apart, with no progress |
| Game.Puzzle.Find | Puzzle/Puzzle.java:394-399 | `find` returns the piece's root, compresses its path and changes no piece's root |
| Game.Puzzle.Merge | Puzzle/Puzzle.java:384-386 | `merge` joins the group of `a` to the group of `b` and nothing else |
| Game.Puzzle.TestGameOver | Puzzle/Puzzle.java:356-367 | the result is true exactly when all pieces share one root, and then `gameOver` is set; groups are unchanged |
| Game.Puzzle.Hits | Puzzle/Puzzle.java:437-439 | a press that hits a piece lies inside the piece's box, so the picture pixel tested exists |
| Game.Puzzle.FirstHit | Puzzle/Puzzle.java:434-439 | the first piece after `k` hit on a visible pixel, if any, with no earlier piece hit |
| Game.Puzzle.Press | Puzzle/Puzzle.java:432-451 | a press records the mouse position. It selects the whole group of the first piece hit on a visible pixel, or changes no selection when none is hit |
| Game.Puzzle.SelectGroup | Puzzle/Puzzle.java:440-445 | the selection grows by exactly the group of `c` |
| Game.Puzzle.Drag | Puzzle/Puzzle.java:275-288 | while the button is down, every selected piece moves by the mouse's travel and the new mouse position is recorded; otherwise nothing moves |
| Game.Puzzle.MoveGroup | Puzzle/Puzzle.java:481-487 | exactly the pieces in `n`'s group move by the error vector |
| Game.Puzzle.MoveIfGrouped | Puzzle/Puzzle.java:482-486 | piece `d` moves exactly when it is in `n`'s group |
| Game.Puzzle.Release | Puzzle/Puzzle.java:454-511 | the release pass moves and merges groups as `Snap.Pass` says. It clears the selection, recounts progress as the joined links, and reports and records a solved puzzle |
| Game.Puzzle.SnapAll | Puzzle/Puzzle.java:457-492 | the snap loop performs the pass over every slot of every selected piece |
| Game.Puzzle.SnapPiece | Puzzle/Puzzle.java:460-490 | the four slots of a selected piece are tried in slot order |
| Game.Puzzle.SnapSlot | Puzzle/Puzzle.java:461-489 | an empty slot changes nothing; a filled one runs the snap test |
| Game.Puzzle.SnapTo | Puzzle/Puzzle.java:465-489 | the snap test between `c` and `n` changes the board as `Snap.TrySnap` says |
| Game.Puzzle.CountConnections | Puzzle/Puzzle.java:495-508 | progress becomes half the joined slots, the selection is cleared and groups are unchanged |
| Game.Puzzle.CountPiece | Puzzle/Puzzle.java:496-506 | one piece adds its joined slots and is deselected |
| Game.Puzzle.CountSlots | Puzzle/Puzzle.java:497-503 | one piece's four slots add its joined ones |
| Game.Puzzle.CountSlot | Puzzle/Puzzle.java:498-503 | one slot adds one exactly when it is joined |
| Game.Puzzle.JoinedSlot | Puzzle/Puzzle.java:498-503 | a slot is joined exactly when it holds a neighbour with the piece's root |

## Left out

Outside the model:

- **Drawing and windowing.** The Swing window, `init`, and `paint`'s drawing of pieces and the progress bar are left out. They only display state. The progress is modelled as the integer `currentConnections`, not the displayed `double` ratio.
- **`main` and `endGame`.** Both do I/O only. `endGame`'s dialog and `System.exit` are left out. Only the `gameOver` flag it sets is modelled.
- **Reading the image file.** `ImageIO.read` and its `System.exit` on failure are input. The image is given to `Game.Open` as an `array2<int>` of ARGB pixels, `image.getRGB(x, y)` being `image[x, y]`.
- **The mouse position.** `MouseInfo` and the fixed window offset used by `paint` are left out. `Game.Puzzle.Drag` takes the mouse position as parameters.
- **Randomness.** `Math.random()` becomes the `Loading.Draws` parameter, one value per piece for each call. Only the tab offset and the tab radius are restricted to the ranges their formulas yield. The starting positions may be any integers.
- **Overflow.** Java `int` overflow is not modelled: integers are unbounded. `imageWidth * i` in the boundary tables (Puzzle.java:177) overflows only for images about 440000 pixels wide. Every other product stays far below 2^31.

Modelled differently:

- **Degenerate images.** An image less than 90 pixels wide or 60 high gives zero columns or rows. The source then fails with an `ArithmeticException` when dividing by zero in the boundary loops. `Game.Open` returns `None` for it instead.
- **Per-piece state.** Position, selection and parent of each piece are stored in arrays of `Game.Puzzle` indexed by id, rather than as fields of `Piece`. The neighbour links are stored there too, as id slots, and never change after loading.
- **The local grid.** `arrangedPieces` is not kept apart: the pieces sequence in id order `i * N + j` is the same arrangement.
- **The other `Piece.java` form.** Piece.java also declares `neighbors` as a linked list of pieces and `parent` as a `Piece` reference. This conflicts with Puzzle.java, which indexes `neighbors[0..3]` and uses `find(int)` over an integer `parent`. The model follows Puzzle.java and the integer `parent` of Piece.java:62. The initial `parent = id` is taken from the assignment Piece.java:80 that is commented out. An `int parent` left unassigned would be 0 for every piece. Piece 0 would then be every piece's root and all pieces would start in one group: a press would select them all, and the first release would report the puzzle solved.
- **Layering.** The source has no drawing order beyond the id order and no rectangle selection. A press tests the pieces in id order, and so does the model.

