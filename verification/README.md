# canvas-tools, modelled in Dafny

canvas-tools reads the placement log of a collaborative pixel canvas and
turns it into two kinds of output. The first kind is three videos: a
timelapse, a "virgin map" of cells that were never touched, and an "age map"
that shows how recently each cell was painted. The second kind is a set of
reports: first-placement and last-placement images, per-user images, a user
colour map, a heatmap, a leaderboard of current pixels, the longest sessions,
and the main contributors.

The canvas grows through a table of tiers. The videos draw each tier centred
in a fixed 960 x 540 frame. When a placement lands beyond the current tier,
the content moves to the next tier's offset.

This project models that core as pure functions over immutable values, and
proves what each stage promises.

| file | module | what it holds |
|---|---|---|
| image.dfy | `Image` | bytes, RGBA pixels, column-major grids, `Option`, the `as u32` cast |
| color.dfy | `Color` | `hex_to_rgba` with its panics as `None`; `#rrggbb` formatting and its round trip |
| render.dfy | `Render` | tier geometry: `pixel_offset`, bordered blank frames, `extend_canvas` and its copy loop |
| canvas.dfy | `Canvas` | the final tier and the white final-tier `blank_image` |
| batching.dfy | `Batching` | the frame-batching clock shared by the three replays, and the frame schedule |
| timelapse.dfy | `Timelapse` | the colour replay |
| virginmap.dfy | `Virginmap` | the replay that blacks out touched cells |
| agemap.dfy | `Agemap` | the age replay: decay, drawing, and the age of each cell |
| gradient.dfy | `Gradient` | the black, dark red, yellow, white gradient of `heatmap_color` |
| reports.dfy | `Reports` | first/last match, counting, sums, grid flattening, the stable descending sort |
| singleplace.dfy … maincontributors.dfy | one module each | the seven reports |

A Rust panic is a value in this model. A replay ends as `Panicked`, keeping
the frames it had already written. A report function returns `None`.
Coordinates go through `x as u32`, which is modelled as a reduction modulo
2^32. The final tier's matrices are indexed with the result.

The reports index their matrices with the placement's coordinates and
panic on a cell outside the final tier. Their functions therefore require
every placement to be inside it (`AllInCanvas`). The replays, by contrast,
model that panic as a result.

## Model

| member | source | states |
|---|---|---|
| Color.HexToRgba | src/util/color.rs:3-8 | decodes exactly the strings whose bytes 1-6 are three hex pairs of at most 255 (a `+` sign included), to those channels with alpha 255; every other string panics |
| Color.OnlyBytesOneToSixMatter | src/util/color.rs:4-6 | bytes before index 1 and from index 7 on do not affect the colour |
| Color.PlusSignAccepted | src/util/color.rs:4-6 | `u8::from_str_radix` takes a leading `+`, so for any three digits `#+a+b+c` decodes like `#0a0b0c`, to (a, b, c, 255) |
| Color.PairParse | src/util/color.rs:4-6 | a two-byte slice parses exactly when it is a valid hex pair, to that pair's value |
| Color.FormatRoundTrip | src/modules/usermap.rs:52 | the `#{:02x}{:02x}{:02x}` string of any three channels decodes back to them, opaque |
| Render.PixelOffset | src/util/render.rs:41-46 | the offset centres the tier in the frame, with an odd leftover pixel on the right or bottom |
| Render.BlankImageBordersWithColour | src/util/render.rs:56-75 | a 960 x 540 frame, `in_bounds` inside the border box and `out_of_bounds` elsewhere; the box includes both far edges |
| Render.BlankImageBorders | src/util/render.rs:48-54 | the bordered frame with opaque black inside and opaque white outside |
| Render.BorderBoxSize | src/util/render.rs:66 | the box is one pixel wider and taller than the tier (`w + 1` by `h + 1`) unless that would leave the frame |
| Render.CopiedRectInsideFrame | src/util/render.rs:95-105 | every target of the copy loop lies inside the frame, so `put_pixel` does not panic |
| Render.ExtendCanvasWithColourPixel | src/util/render.rs:84-108 | each pixel of the new tier's frame is the old pixel read at the old offset inside the copied `w x h` rectangle, and the new bordered frame's pixel elsewhere |
| Render.ExtendCanvasPixel | src/util/render.rs:77-82 | growth with the transparent white background inside the new box and black outside |
| Render.GrowthKeepsOldContent | src/util/render.rs:95-105 | every pixel of the old tier's rectangle is found at the new offset |
| Render.OldEdgeShowsBackground | src/util/render.rs:95-96 | the old box's inclusive right and bottom edges are not copied, so they show the new in-bounds colour |
| Render.ExtendCanvasLoop | src/util/render.rs:93-107 | the nested copy loop, run over a fresh bordered frame, builds exactly the extended canvas |
| Canvas.BlankImage | src/util/canvas.rs:4-15 | a final-tier-sized image that is opaque white everywhere |
| Batching.TrailingFrame | src/modules/timelapse.rs:87 | the trailing frame is written exactly when some frame fired, or when `pixels_per_frame + n > 0` for n placements and no frame fired |
| Batching.ClockShape | src/modules/timelapse.rs:57-72 | before the first frame the clock is (0, -n); after one, fewer than `pixels_per_frame` pixels remain |
| Batching.FirstFrame | src/modules/timelapse.rs:65 | the first frame fires at the first placement whose timestamp reaches `min_seconds_per_frame` |
| Batching.SinceFrame | src/modules/timelapse.rs:65-72 | after a frame at placement i, and none since, the clock holds i's timestamp and `pixels_per_frame` minus the placements since |
| Batching.FrameSpacing | src/modules/timelapse.rs:65 | two consecutive frames are at least `pixels_per_frame` placements and `min_seconds_per_frame` seconds apart |
| Batching.FrameCountBound | src/modules/timelapse.rs:60-92 | the replay writes at most one frame per placement plus the trailing one |
| Timelapse.ApplyTier | src/modules/timelapse.rs:74-78 | a placement that does not panic moves to the next tier exactly when x > w or y > h |
| Timelapse.ApplyPaints | src/modules/timelapse.rs:80-84 | a placement that does not panic has a well-formed colour and paints it at its offset position, which lies in the frame |
| Timelapse.ApplyKeeps | src/modules/timelapse.rs:80-84 | every other pixel of the frame is as growth left it; growth happens only below the last tier |
| Timelapse.ApplyPanics | src/modules/timelapse.rs:74-84 | the drawing half panics exactly on growth past the last tier, a malformed colour, or a position outside the frame |
| Timelapse.ReplayFollowsSchedule | src/modules/timelapse.rs:60-85 | a running replay's clock and frame count are those of the timestamp schedule |
| Timelapse.FramesFollowSchedule | src/modules/timelapse.rs:48-93 | the video has exactly the scheduled frames plus the trailing one, at most n + 1 |
| Timelapse.FrameShowsStateBefore | src/modules/timelapse.rs:65-70 | the frame fired by placement i shows the canvas after the first i placements, before placement i itself |
| Timelapse.TrailingFrameIsFinalState | src/modules/timelapse.rs:87-92 | the trailing frame is the final canvas |
| Timelapse.RunningPrefix | src/modules/timelapse.rs:60-85 | a run that does not panic passes through non-panicking prefixes, whose frames it extends and whose tier it never undoes |
| Timelapse.GrowthCarriesTierContent | src/modules/timelapse.rs:74-78 | on growth, the old tier's content reappears at the new offset, and its inclusive right and bottom edges become transparent white |
| Virginmap.Initial | src/modules/virginmap.rs:31 | the starting frame is magenta inside tier 0's border box and black outside |
| Virginmap.ApplyTier | src/modules/virginmap.rs:76-80 | a placement that does not panic moves to the next tier exactly when x > w or y > h |
| Virginmap.ApplyPaints | src/modules/virginmap.rs:82 | a placement that does not panic blacks out its offset position, which lies in the frame |
| Virginmap.ApplyKeeps | src/modules/virginmap.rs:82 | every other pixel of the frame is as growth left it; growth happens only below the last tier |
| Virginmap.ApplyPanics | src/modules/virginmap.rs:76-82 | the drawing half panics exactly on growth past the last tier or a position outside the frame |
| Virginmap.InTierNeverPanics | src/modules/virginmap.rs:76-82 | a placement within the current tier, edges included, whose offset position lies in the frame, neither grows nor panics |
| Virginmap.PlacedStaysBlack | src/modules/virginmap.rs:62-83 | a pixel placed inside its tier stays black, at its tier coordinate, for the rest of the run, across growth |
| Virginmap.FrameShowsStateBefore | src/modules/virginmap.rs:67-72 | the frame fired by placement i shows the canvas before placement i |
| Virginmap.FramesFollowSchedule | src/modules/virginmap.rs:50-91 | the video has exactly the scheduled frames plus the trailing one |
| Virginmap.TrailingFrameIsFinalState | src/modules/virginmap.rs:85-90 | the trailing frame, when written, is the buffer the loop ended with, and nothing else is added |
| Virginmap.GrowthRepaintsEdge | src/util/render.rs:95-96 | a black pixel on the current tier's inclusive right or bottom edge is virgin again after growth, because only the `w x h` rectangle is copied |
| Virginmap.EdgePlacementLost | src/modules/virginmap.rs:76-82 | with tiers 100 x 100 and 200 x 200, a placement at (100, 0) blacks out its pixel and a placement at (150, 0) then turns it virgin again |
| Agemap.ShadeFadesWithAge | src/modules/agemap.rs:17-45 | age 0 is black, age 60 is white, and every channel grows with the age |
| Agemap.Decay | src/modules/agemap.rs:96-102 | every positive age drops by one and the other ages stay |
| Agemap.DecayInRange | src/modules/agemap.rs:96-102 | decay keeps every age within 0..60 |
| Agemap.DecayTimesClosedForm | src/modules/agemap.rs:96-102 | n decays leave max(age - n, 0) |
| Agemap.AgeFrameShowsAges | src/modules/agemap.rs:104-120 | every cell up to the tier's inclusive width and height is drawn at the tier offset, in the shade of its age |
| Agemap.DrawAges | src/modules/agemap.rs:104-120 | the skipping nested loop builds exactly that frame |
| Agemap.Emit | src/modules/agemap.rs:95-126 | when the clock fires, the ages decay and a frame of the decayed ages is written |
| Agemap.Apply | src/modules/agemap.rs:130-135 | sets the placed cell's age to 60 and leaves the others; panics on growth past the last tier or a cell outside the final tier |
| Agemap.FramesFollowSchedule | src/modules/agemap.rs:76-170 | the video has exactly the scheduled frames plus the trailing one |
| Agemap.TrailingFrameDecays | src/modules/agemap.rs:138-169 | when the trailing frame is written every positive age first drops by one, and the frame shows the decayed ages; otherwise the run ends as the loop did |
| Agemap.AgeTracksLastPlacement | src/modules/agemap.rs:90-136 | a cell's age is 60 minus the frames fired since its last placement (floored at 0), or 0 if never placed |
| Singleplace.Step | src/modules/singleplace.rs:16-26 | a placed cell is skipped; otherwise the colour is decoded (panicking on a malformed string), painted and the cell marked |
| Singleplace.FirstWriterWins | src/modules/singleplace.rs:13-26 | each cell shows the colour of the first placement there, or white, and is marked exactly when hit |
| Singleplace.PaintPanics | src/modules/singleplace.rs:19-23 | the report panics exactly when some first placement at a cell has a malformed colour; later ones are never decoded |
| Currentpixels.LastWriterWins | src/modules/currentpixels.rs:24-33 | each cell holds the user of the last placement there, 0 for a moderation row or an untouched cell |
| Currentpixels.TallySpec | src/modules/currentpixels.rs:34-40 | one entry per distinct nonzero user, counting that user's cells, the counts summing to the owned cells |
| Currentpixels.UserCounts | src/modules/currentpixels.rs:34-40 | the counting loops compute that tally over the cells in row order |
| Currentpixels.LeaderboardSpec | src/modules/currentpixels.rs:42-43 | the leaderboard is a permutation of the tally, sorted by count descending, totalling at most `w * h` |
| Singleplayer.OwnerGridPanics | src/modules/singleplayer.rs:28-40 | the grid is built exactly when every placement's colour decodes, moderation rows included |
| Singleplayer.LastWriterWins | src/modules/singleplayer.rs:23-40 | each cell holds the last placement's user and colour, white with owner 0 for a moderation row, or (0, transparent black) if untouched |
| Singleplayer.DrawUserImages | src/modules/singleplayer.rs:42-52 | the loop over the grid, skipping unowned cells and creating an owner's image white on their first cell, builds exactly one image per nonzero owner, white except for that owner's cells in their colours |
| Singleplayer.ImagesPartitionCells | src/modules/singleplayer.rs:42-52 | an owned cell appears in its owner's image only; an unowned cell is white in all of them |
| Usermap.Step | src/modules/usermap.rs:38-61 | a moderation row paints white; a cached colour is decoded (panicking if malformed); a missing one is derived, painted and cached as a string that decodes to it; other cells stay |
| Usermap.CacheGrowsOnly | src/modules/usermap.rs:33-61 | the cache is the loaded one plus the derived colour of exactly the users who painted without an entry |
| Usermap.RunPanics | src/modules/usermap.rs:44-45 | the report panics exactly when a painting user's loaded entry is malformed; entries the loop itself wrote always decode |
| Usermap.LastWriterWins | src/modules/usermap.rs:38-61 | each cell shows the colour of its last placement's user (one colour per user), white for a moderation row, or stays white |
| Gradient.GradientSegments | src/modules/heatmap.rs:19-32 | in each segment the colour is the mix of its two stops; above 1 it is white |
| Gradient.HotterNeverDarker | src/modules/heatmap.rs:15-32 | a larger non-negative value gives a colour no darker in any channel |
| Heatmap.HeatCounts | src/modules/heatmap.rs:42-48 | each cell counts the placements on it |
| Heatmap.HeatTotal | src/modules/heatmap.rs:42-48 | the counts add up to the number of placements |
| Heatmap.Hottest | src/modules/heatmap.rs:50 | the largest count, panicking on an empty grid |
| Heatmap.Capped | src/modules/heatmap.rs:51 | the cap is the hottest count, limited to 20 |
| Heatmap.CapZeroIffEmpty | src/modules/heatmap.rs:44-51 | the cap is zero exactly when there are no placements |
| Heatmap.HeatImageExtremes | src/modules/heatmap.rs:53-58 | empty cells are black and cells at or above the cap white; with a zero cap (0 / 0) every cell is white |
| Heatmap.HeatImageOrdered | src/modules/heatmap.rs:53-58 | a cell with more placements is never darker |
| Heatmap.RenderHeatmap | src/modules/heatmap.rs:40-58 | the image colours every cell by its count over the capped hottest count |
| Longsession.SessionsAreIndependent | src/modules/longsession.rs:29-49 | a user's recorded sessions and open session are those of that user's own timestamps run alone |
| Longsession.PixelsConserved | src/modules/longsession.rs:35-48 | every non-moderation placement lands in exactly one of the user's sessions |
| Longsession.OpenSessionIsLastRun | src/modules/longsession.rs:40-48 | the open session starts after the last pause longer than `seconds` and counts the placements since |
| Longsession.OpenSessionOrdered | src/modules/longsession.rs:35-48 | with ordered timestamps, the open session ends no earlier than it starts |
| Reports.SortDescStable | src/modules/longsession.rs:59 | `sort_by` is stable: the sessions with equal pixel counts keep their input order |
| Longsession.LongsessionSorted | src/modules/longsession.rs:42-59 | the report lists only sessions of more than 50 pixels, sorted by pixels descending |
| Longsession.LongsessionPerUser | src/modules/longsession.rs:29-59 | for each user the report holds exactly the long sessions of that user's run, the open one included |
| Maincontributors.InitialCap | src/modules/maincontributors.rs:20 | the budget is `pixel_count * percentage / 100`, truncated toward zero |
| Maincontributors.Contributors | src/modules/maincontributors.rs:25-37 | lists users in order, numbered from 1, while the running total stays below the budget; the user who exhausts it is not listed |
| Maincontributors.ListedIffBelowBudget | src/modules/maincontributors.rs:25-37 | with positive counts, user i is listed exactly when the first i + 1 counts sum to less than the budget |

## Left out

- Video output is left out: the ffmpeg child process, `start_ffmpeg` and writing frames to its stdin. Frames are collected in a sequence.
- The SQL queries, `get_user_map` and `print_write` are left out, as are the PNG, text and JSON files and `main.rs` with its argument parsing and async runtime. Queries become input sequences. Printed reports become returned values.
- The `unwrap` of each timestamp and Discord id parse is left out. Timestamps and ids arrive as parsed integers.
- The `users.get(..).unwrap()` lookups that print names are left out. A user without a name would panic while printing.
- `CANVAS_SIZES` lives in `config.rs`, which is not part of this model. The tier table is a parameter. `ValidTiers` asks for each tier to fit the frame and for tiers not to shrink. Without that, `pixel_offset`'s `u32` subtraction underflows.
- The callers use a two-argument `blank_image_borders(idx, flag)` that `src/util/render.rs` does not define. The timelapse's starting frame and the age map's per-tier background are therefore parameters (`Timelapse.Config.initial`, `Agemap.Config.bases`).
- The usermap colour derivation is left out: the `f64` HSV arithmetic and `hsv_to_rgb`. It is the parameter `Usermap.Config.derive`.
- Gradient.HotterNeverDarker: the gradient is computed on exact reals rather than `f32`. Where the exact channel value times 255 is a whole number, the program's `f32` product lands just below it and `as u8` truncates one lower, so a model channel can be one above the program's anywhere inside a segment (count 4 of cap 5 gives blue 105 here and 104 in `f32`). Monotonicity and the black and white extremes hold in both readings.
- Agemap.ShadeFadesWithAge: the age ratio is the exact `age / 60` rather than its `f32` value, so a channel can be one above the program's wherever the exact value times 255 is whole (ages 40, 42, ..., 54 and 58; age 48 gives 105 here and 104 in `f32`). Fading with age holds in both readings.
- Agemap.AgeFrameShowsAges: the frame's bytes are those of the exact-real `Shade`, so for the ages listed above a channel is one above the program's `f32` result; the layout (which pixels are drawn, on which base) is exact.
- Heatmap.RenderHeatmap: the cell colours are those of the exact-real gradient, so a channel can be one above the program's `f32` result where the exact value times 255 is whole (for example 4 of cap 5); which cell gets which ratio is exact.
- Maincontributors.InitialCap: the budget is computed on exact rationals rather than `f32`. In `f32`, `percentage / 100` is usually inexact, so for ordinary counts the program's budget can be one below the exact value: 100 pixels at 53 percent gives 52 in the program and 53 here, and (300, 21) gives 62 against 63. A first user with exactly that many pixels is then listed here but not by the program.
- Integer widths are not modelled beyond `as u32`. Timestamps, `remaining_pixels`, heat counts, session pixel counts and the budget are unbounded. `i32` overflow would take over two billion placements.
- Timelapse.Apply: the sum of a placement's `u32` coordinate and the offset is an unbounded integer, so a sum of 2^32 or more is outside the frame and panics. That is the overflow-checked (debug build) behaviour. A release build wraps the sum modulo 2^32 and paints instead: `x = -1` on the 200 x 200 tier paints column 379.
- Virginmap.Apply: the same overflow-checked reading of `x + placement_offset.0` and `y + placement_offset.1`; a release build wraps them and blacks out a pixel where the model panics.
- Virginmap.PlacedStaysBlack: covers placements strictly inside their tier (`x < w`, `y < h`). A placement on the inclusive right or bottom edge (`x == w` or `y == h`) is accepted and painted black. The next growth copies only the `w x h` rectangle, so it turns virgin again (Virginmap.GrowthRepaintsEdge, Virginmap.EdgePlacementLost).
- Longsession.LongsessionPerUser: the order in which the open sessions are flushed from the `HashMap` is a parameter (`order`), because the program does not fix it. The order of equal-pixel sessions in the report is therefore left open. The contract states the contents per user, not the positions.
- Currentpixels.LeaderboardSpec: `user_counts` is a `HashMap`. The model keeps its entries in first-seen order, so the relative order of users with equal counts is not a property of the program.
- The reports' coordinate panics are preconditions (`AllInCanvas`) rather than modelled results. Any row outside the final tier makes the Rust report panic before it writes output.
