# apex-tux, modelled in Dafny

apex-tux drives the 128×40 monochrome OLED of SteelSeries Apex keyboards. A set of
*content providers* (clock, music player, Bitcoin price, images and GIFs, desktop
notifications) each produce an endless stream of frames. A *scheduler* shows one stream
at a time, switches on hotkey commands and lets notifications pre-empt the current
stream. Every frame is a 642-byte buffer: one report header byte, 640 bytes of
pixels packed eight to a byte (most significant bit first) and one trailing byte.

This project models that core as pure Dafny functions over immutable data:

* `Device` (`device.dfy`): the frame buffer. It covers creating a blank buffer, setting one
  pixel, drawing a pixel sequence and reading every pixel back.
* `Text` (`text.dfy`): the scrollable text widget. It covers the off-screen canvas, building
  it from a builder and the projection window. It also covers the per-tick rotation, which
  wraps the canvas around the window, and a stateful widget that rebuilds itself only when
  its text changes.
* `Multiplex` (`stream.dfy`): the multiplexer that polls the stream chosen by index, with
  fused (terminate-once) streams.
* `Scheduler` (`scheduler.dfy`):
  * which providers are enabled;
  * the event loop over a sequence of already-resolved events (content tick, command,
    notification);
  * index wrapping for next/previous;
  * the device trace of clears and draws, with device failure as a parameter.
* `Notifications` (`notifications.dfy`): the notification layout (icon offset, title
  projection, scroll time, tick count) and the frames it produces.
* The image pipeline, shared by `ImageRender` (`image.dfy`), `GifRender` (`gifrender.dfy`)
  and `GifProvider` (`gifprovider.dfy`):
  * the median-colour threshold (`Median`, `median.dfy`);
  * packing a binarised picture into bytes and reading it back (`Raster`, `raster.dfy`);
  * frame timing of animations (`FrameCycle`, `cycle.dfy`).
* `Mpris` (`mpris.dfy`): the MPRIS2 player client.
  * It reads the title, artists and length from the metadata map and parses the playback
    status.
  * It filters bus names and chooses a player, by preference or by status.
  * It assembles the progress record.
* `Music` (`music.dfy`): the music provider. It covers the two scrolling lines, the play,
  pause and idle templates, the frame update and the provider's stream of frames over
  successive player sessions.
* `Coindesk` (`coindesk.dfy`): the currency choice read from the configuration, and the
  price formatting.

The helper modules are `Wrappers` (`Option`/`Result`), `Geometry`, `Arith`, `Bits` and
`Strings`. `Strings` covers UTF-8 length, substring search, joining and the settings map.

Everything asynchronous is flattened into sequences. An async stream is the sequence of
items it yields. A `select!` loop is the sequence of events that won each round. The
device is a trace of the operations it accepted. Time is a `now` parameter in
milliseconds.

## Model

| member | source | states |
|---|---|---|
| Device.New | apex-hardware/src/device.rs:19-32 | A new buffer carries the report header 0x61 in byte 0, every other byte is zero and every display pixel is off |
| Device.HeaderBits | apex-hardware/src/device.rs:21-22 | The header bits set in the blank buffer spell the byte 0x61 |
| Device.DrawPixel | apex-hardware/src/device.rs:88-93 | Drawing a pixel inside the display sets exactly that pixel to its colour and leaves every other pixel and the header and trailer bits unchanged; a pixel outside the display changes nothing |
| Device.BitIndexInjective | apex-hardware/src/device.rs:89-92 | Distinct display coordinates map to distinct bits of the buffer |
| Device.DrawIterLastWriteWins | apex-hardware/src/device.rs:84-97 | After drawing a pixel sequence, each display pixel holds the colour of the last pixel drawn at its position, or its old value if none was; the envelope bits never change |
| Device.DrawIterUntouched | apex-hardware/src/device.rs:88-94 | A display pixel that no drawn pixel addresses keeps its value |
| Device.DrawIterUnique | apex-hardware/src/device.rs:88-94 | A pixel addressed exactly once takes that pixel's colour |
| Device.DrawIter | apex-hardware/src/device.rs:84-97 | Drawing pixels never changes the report header byte or the trailing byte |
| Device.Dimensions | apex-hardware/src/device.rs:74-78 | The reported size is 128 × 40, exactly the 5120 display pixels |
| Device.PixelsCoverDisplay | apex-hardware/src/device.rs:51-71 | Reading the buffer yields one pixel per display position, row by row, each carrying the stored colour |
| Device.Pixels | apex-hardware/src/device.rs:51-71 | Entry x + 128·y of the pixel list is the pixel at (x, y), carrying the colour stored there |
| Device.DrawRoundTrip | apex-hardware/src/device.rs:51-71 | Drawing the pixels read from one buffer onto another reproduces every display pixel of the first; with equal envelopes the two buffers become equal |
| Text.NewCanvas | src/render/text.rs:22-31 | A new canvas has the requested size and every pixel off |
| Text.CanvasDrawPixelEffect | src/render/text.rs:48-54 | Drawing on the canvas changes only the addressed pixel |
| Text.CanvasDrawIterOutside | src/render/text.rs:44-56 | Pixels outside the canvas are ignored |
| Text.CanvasDrawIter | src/render/text.rs:44-56 | Drawing on the canvas keeps its size and validity |
| Text.Clear | src/render/text.rs:58-61 | Clearing sets every canvas pixel to the given colour and keeps the size |
| Text.CalculateSpacing | src/render/text.rs:156-158 | The spacing is the builder's, else the default of 5 |
| Text.CalculateSize | src/render/text.rs:160-163 | The canvas is the rendered text plus the spacing wide, and as high as the text |
| Text.Build | src/render/text.rs:169-187 | A built widget's canvas is the rendered text plus the spacing wide and holds the rendered glyphs on a blank background: a cell is lit iff the last glyph pixel drawn there is on. The projection defaults to the canvas size, the position to the origin, and scroll is 0 |
| Text.CanvasDrawIterLastWriteWins | src/render/text.rs:44-56 | After drawing on the canvas, each cell holds the colour of the last pixel drawn at it, or its old colour |
| Text.BlankCanvasShowsLastWrites | src/render/text.rs:169-187 | On a blank canvas, exactly the cells whose last drawn pixel is on are lit |
| Text.FromBuilder | src/render/text.rs:79-89 | A stateful widget keeps its builder, holds the widget built from it and starts unscrolled |
| Text.Update | src/render/text.rs:112-122 | Update reports true iff the text changed; an unchanged text leaves the widget as it was; a changed one is rebuilt from the builder with the new text |
| Text.UpdateIdempotent | src/render/text.rs:112-122 | Updating twice with the same text changes nothing the second time |
| Text.RowIsCyclic | src/render/text.rs:223-253 | Each projected row equals the cyclic window of the canvas row starting at the scroll offset: the copy and the wrap-around copy together |
| Text.RowsAreCyclic | src/render/text.rs:223-254 | The same holds for all rows of the projection |
| Text.AtTickIsRotatedWindow | src/render/text.rs:213-258 | The pixels at tick t are the cyclic window at offset t modulo the canvas width |
| Text.AtTickPeriodic | src/render/text.rs:218 | The rendering repeats after as many ticks as the canvas is wide |
| Text.AtTickInProjection | src/render/text.rs:223-253 | Every rendered pixel lies inside the projection window at the widget's position |
| Text.AtTick | src/render/text.rs:213-258 | The pixels drawn at tick t are the cyclic window of the canvas that starts at column t modulo the canvas width |
| Text.Draw | src/render/text.rs:199-209 | Drawing the widget draws that cyclic window at the widget's own scroll counter |
| Text.Scroll | src/render/text.rs:260-262 | Scrolling advances the scroll counter by one and changes nothing else |
| Multiplex.Multiplex | src/render/stream.rs:20-33 | Building the multiplexer keeps the streams in order |
| Multiplex.New | src/render/stream.rs:69-72 | The multiplexer holds exactly the given streams |
| Multiplex.PollNext | src/render/stream.rs:42-51 | Polling index i yields what stream i yields and advances only stream i; an out-of-range index is a precondition, since the source panics with "Bad index" |
| Multiplex.IsTerminatedIff | src/render/stream.rs:59-61 | The multiplexer is terminated iff every inner stream is, so an empty one is terminated |
| Multiplex.PollFused | src/render/scheduler.rs:133 | A fused stream yields its next item while it has one; once it runs out it is marked terminated and yields nothing |
| Multiplex.AllTerminatedIff | src/render/stream.rs:59-61 | The fold over the streams is the universal statement |
| Multiplex.IsTerminated | src/render/stream.rs:59-61 | The multiplexer reports terminated iff every inner stream does |
| Multiplex.FusedStaysTerminated | src/render/scheduler.rs:133 | A fused stream that has terminated yields nothing from then on and does not change |
| Multiplex.RunLeavesOthers | src/render/stream.rs:42-51 | A stream never selected in a run of polls is untouched |
| Multiplex.RunAdvances | src/render/stream.rs:42-51 | A live stream selected k times has advanced by exactly k items |
| Multiplex.InterleavedRun | src/render/stream.rs:42-51 | Alternating selections interleave the two streams' items, each in its own order |
| Scheduler.EnabledKey | src/render/scheduler.rs:116-118 | A provider is switched by the key `<name>.enabled` |
| Scheduler.ActiveStreamsAppend | src/render/scheduler.rs:113-134 | Selecting the enabled providers distributes over concatenation, so registration order is kept |
| Scheduler.ActiveStreamsMembers | src/render/scheduler.rs:113-127 | A stream is active iff some registered provider is enabled and produced it |
| Scheduler.FirstError | src/render/scheduler.rs:81-95 | Start-up fails iff some provider failed, and the error reported is the first one in registration order |
| Scheduler.NextIndex | src/render/scheduler.rs:144-146 | Next wraps to the following index modulo the provider count; with no providers it panics |
| Scheduler.PrevIndex | src/render/scheduler.rs:149-153 | Previous goes to the preceding index, wrapping from 0 to the last one. With no providers, index 0 wraps to usize::MAX and any other index is a remainder by zero |
| Scheduler.NextPrevInverse | src/render/scheduler.rs:144-156 | Next and previous undo each other |
| Scheduler.NextNIsAddition | src/render/scheduler.rs:144-146 | k presses of next add k modulo the provider count |
| Scheduler.NextCycle | src/render/scheduler.rs:144-146 | As many presses of next as there are providers return to the start |
| Scheduler.DrawFramesInOrder | src/render/scheduler.rs:160-166 | With a healthy device every frame is drawn, in order |
| Scheduler.DrawFrames | src/render/scheduler.rs:162-165 | Drawing a notification's frames only appends to the device trace |
| Scheduler.DrawFramesStopsAtError | src/render/scheduler.rs:161-165 | The first failing frame ends the drawing with its error, after the frames before it were drawn |
| Scheduler.StepEvent | src/render/scheduler.rs:139-173 | One loop round keeps the provider count, the notification flag and a valid current index, and a break leaves the state as it was. The device trace only grows, and a round that ends the loop by returning returns an error |
| Scheduler.SwitchStep | src/render/scheduler.rs:144-156 | A next or previous command whose index computation divides by zero panics; otherwise it stores the new index and clears the display, touching nothing else |
| Scheduler.NotificationStep | src/render/scheduler.rs:160-167 | A notification event changes only the device, leaves the loop untouched while notifications are off, and ends the loop only with an error |
| Scheduler.NotificationDrawsFrames | src/render/scheduler.rs:160-167 | While notifications are on, the frames of a notification are drawn through `DrawFrames`; the loop stops with that error exactly when a frame fails |
| Scheduler.NotificationErrorStops | src/render/scheduler.rs:160-167 | While notifications are on, a notification error ends the loop with that error and draws nothing |
| Scheduler.ContentStep | src/render/scheduler.rs:168-172 | A content tick keeps the index and provider count; an index past the end panics with "Bad index" |
| Scheduler.ClearAfterSwitch | src/render/scheduler.rs:144-156 | A switch sets the new index and clears the display once; it fails exactly when the device fails, ending the loop with the device error |
| Scheduler.Finish | src/render/scheduler.rs:176-177 | Leaving the loop clears the display once, or reports the device error |
| Scheduler.Start | src/render/scheduler.rs:75-138 | A provider factory error or a notification factory error aborts start-up before any device operation, with the first such error. Otherwise the loop runs from the initial state over the enabled providers' streams, with notifications on iff some notification stream was created |
| Scheduler.InitialState | src/render/scheduler.rs:108-138 | The loop starts on provider 0 with an empty device trace and one fused stream per active provider |
| Scheduler.Perform | src/render/scheduler.rs:147-170 | A device operation succeeds iff the device has not reached its failure point; success appends the operation to the trace, failure changes nothing |
| Scheduler.SwitchClearsOnce | src/render/scheduler.rs:144-156 | A next or previous command clears the display exactly once and moves the index |
| Scheduler.ShutdownClearsOnce | src/render/scheduler.rs:139-177 | A shutdown command ends the loop, whatever follows it, after one clear |
| Scheduler.ContentDrawsCurrent | src/render/scheduler.rs:168-172 | A content tick draws the current provider's next frame |
| Scheduler.NoProvidersPanics | src/render/scheduler.rs:144-172 | With no providers, next panics on the remainder by zero, previous does too from any index but 0, and a content tick panics with "Bad index" |
| Scheduler.NoProvidersPreviousWraps | src/render/scheduler.rs:149-172 | With no providers, previous at index 0 stores usize::MAX and clears the display; the following content tick panics with "Bad index" |
| Scheduler.LoopKeepsIndex | src/render/scheduler.rs:139-174 | Every state the loop reaches has a valid index and the same provider count |
| Scheduler.Loop | src/render/scheduler.rs:139-177 | The loop only ever appends to the device trace, and a successful return ends with the final clear |
| Notifications.Title | src/render/notifications.rs:117-119 | The title is the given one, else the default |
| Notifications.Offset | src/render/notifications.rs:125-130 | The text sits 3 pixels right of the icon (or of the left edge) and 10 below its top |
| Notifications.Projection | src/render/notifications.rs:132-139 | The title window fills the width right of the offset, minus a 3-pixel margin, and is one font line high |
| Notifications.ProjectionCharacters | src/render/notifications.rs:141-146 | The character count is the number of whole 6-pixel glyphs that fit in the window |
| Notifications.ProjectionWidths | src/render/notifications.rs:125-146 | Without an icon the window is 122 pixels (20 characters) wide, and with a 24×24 icon it is 98 pixels (16 characters) wide |
| Notifications.ScrollTime | src/render/notifications.rs:153-161 | Titles that fit need no scroll time; longer ones get at least three characters' worth |
| Notifications.RequiredTicks | src/render/notifications.rs:153-164 | The display time is two seconds of ticks plus the scroll time, in wrapping u32 arithmetic |
| Notifications.RequiredTicksBounds | src/render/notifications.rs:153-164 | A notification shows for at least 40 ticks, exactly 40 iff its title fits |
| Notifications.TitleBuilder | src/render/notifications.rs:186-190 | The title widget is placed at the offset, three rows down, with the computed projection |
| Notifications.Build | src/render/notifications.rs:166-199 | Building fails iff an icon is not 24×24. Otherwise the frame is the blank buffer with the icon drawn, and the tick count, scroll flag, title widget and content are as computed |
| Notifications.BuiltLayout | src/render/notifications.rs:182-198 | The title window ends 3 pixels before the display's right edge, sits at row 3, is one 10-pixel line high, and the notification shows for at least 40 ticks |
| Notifications.BuiltTitleRenderable | src/render/notifications.rs:182-198 | With a font that draws the title at least one 10-pixel line high, a built notification's title can be rendered, so its frames are defined |
| Notifications.TitleTick | src/render/notifications.rs:79-83 | A scrolling title advances once per tick; a still title always uses tick 0 |
| Notifications.Stream | src/render/notifications.rs:76-89 | The stream yields exactly the required number of frames, each the base frame with the title and the overlay drawn at that tick |
| Notifications.StillTitle | src/render/notifications.rs:79-83 | A title that fits looks the same at every tick |
| Notifications.ScrollingTitlePeriodic | src/render/notifications.rs:79-83 | A scrolling title repeats after as many ticks as its canvas is wide |
| Notifications.Frame | src/render/notifications.rs:77-86 | Outside the title window each point of frame i shows the last overlay pixel drawn there, or else the base frame; the header and trailing bytes are the base frame's |
| Notifications.OverlayOutsideTitle | src/render/notifications.rs:79-85 | The title draws nothing outside its window, so there only the overlay and the base frame count |
| Median.Histogram | src/render/image.rs:33-98 | The counting loop computes, for each of the 256 values, the total weight of the samples in that bucket |
| Median.HistogramAccountsAll | src/render/image.rs:33-98 | The histogram's total is the total weight of all samples |
| Median.MedianLoop | src/render/image.rs:33-98 | The search loop returns the median threshold |
| Median.MedianIff | src/render/image.rs:33-98 | The threshold is v (v ≥ 2) iff v is the first value whose cumulative count reaches half the pixels. It is 1 when that happens by value 1 or never happens |
| Median.MedianOf | src/render/image.rs:33-98 | The threshold always lies in [1, 255] |
| ImageRender.MedianColorIsFirstReaching | src/render/image.rs:33-98 | For an image, the median is the first brightness at which half of the kept pixels are accounted for |
| Raster.PackRowLoop | src/render/image.rs:100-160 | The bit-packing loop of a row produces the row packed eight pixels per byte, most significant bit first, padded with zeros |
| Raster.PackImageLoop | src/render/image.rs:100-160 | The loop over rows packs the kept rows one after another |
| Raster.PackRows | src/render/image.rs:100-160 | The packed picture is as many bytes as rows times bytes per row |
| Raster.PackReadRoundTrip | src/render/gif.rs:101-163 | Reading bit (x, y) back from a packed picture gives exactly whether the pixel was lit |
| Raster.DrawRaw | src/render/image.rs:298-338 | Drawing a packed picture at an origin puts each of its pixels at origin + (x, y) on the display |
| ImageRender.ReadImageBits | src/render/image.rs:100-160 | A packed image pixel is on iff it lies in the image and on the display and its brightness reaches the median |
| ImageRender.ReadImage | src/render/image.rs:100-160 | The packed image has one row of bytes, eight pixels per byte, for each kept row |
| ImageRender.MoveFitsIff | src/render/image.rs:181-200 | Moving succeeds iff the shifted image stays within the target size |
| ImageRender.Move | src/render/image.rs:181-200 | The result has the target size. Each image pixel not pushed to a negative coordinate lands inside the target at its offset position, and every other target pixel is transparent |
| ImageRender.CenterOffset | src/render/image.rs:174-179 | The centring offset leaves margins that differ by at most one on each axis |
| ImageRender.Center | src/render/image.rs:174-179 | Centring never fails for an image that fits. The result contains the whole image shifted by the centring offset, and transparent margins |
| ImageRender.FrameDelay | src/render/image.rs:226-230 | A frame's delay is its millisecond count truncated to u16; a delay that truncates to 0 becomes 16 ms |
| ImageRender.ReadDynamic | src/render/image.rs:202-268 | A still image becomes one frame with the fixed still delay. An animation keeps exactly its decodable frames, in order, each binarised and with its own delay |
| ImageRender.DecodableFit | src/render/image.rs:202-268 | Every kept frame fits the display |
| ImageRender.Draw | src/render/image.rs:298-338 | Draw shows the current frame. Once its delay has passed it moves to the next frame modulo the frame count with the clock reset, wrapping and reporting true after the last one; the frames and delays never change |
| ImageRender.DrawShowsFrame | src/render/image.rs:298-338 | Each display pixel under the image shows the current frame's bit |
| ImageRender.StillImageWraps | src/render/image.rs:247-257 | A still image always stays on its single frame, and reports a completed cycle iff 1.5 s have passed since it was loaded |
| FrameCycle.Tick | src/render/image.rs:318-337 | Before the wait has passed nothing changes. After it, the frame advances modulo the frame count, the clock resets and the flag says whether it wrapped |
| FrameCycle.AdvancedIsModular | src/render/image.rs:318-337 | After k advances the current frame is start + k modulo the frame count |
| FrameCycle.FullCycle | src/render/image.rs:318-337 | As many advances as there are frames return to the starting frame |
| GifRender.MedianColorIsFirstReaching | src/render/gif.rs:34-99 | For a GIF frame, the median is the first brightness at which half of width × height (in wrapping u32) is reached |
| GifRender.NumPixels | src/render/gif.rs:43 | The pixel count is width × height whenever that fits in u32 |
| GifRender.ReadFrameBits | src/render/gif.rs:101-163 | A packed frame pixel is on iff it lies in the frame and on the display and its mean reaches the median; bytes missing from the buffer read as black |
| GifRender.ReadFrame | src/render/gif.rs:101-163 | The packed frame has one row of bytes, eight pixels per byte, for each kept row |
| GifRender.FrameWaitAsWritten | src/render/gif.rs:255 | The wait computed in u16 stays below 65536 and is correct only while delay × 10 fits |
| GifRender.FrameWaitOverflows | src/render/gif.rs:255 | A delay of 6554 waits 4 ms as written instead of 65540 ms |
| GifRender.FrameWait | src/render/gif.rs:255 | The intended wait is ten milliseconds per delay unit |
| GifRender.FrameWaitAgreement | src/render/gif.rs:255 | The two agree below 6554 and the source's wait is shorter from there on |
| GifRender.New | src/render/gif.rs:209-235 | Every decoded frame is binarised at the requested size, keeps its delay, and the first frame is current |
| GifRender.Draw | src/render/gif.rs:237-275 | Draw shows the current frame. It advances to the next frame modulo the frame count, with the clock reset, once the wait computed in u16 has passed, and reports true after the last frame; the frames never change |
| GifRender.DrawIntended | src/render/gif.rs:237-275 | The same with the intended wait of ten milliseconds per delay unit |
| GifRender.DrawAgreesBelowOverflow | src/render/gif.rs:255 | For delays below 6554 the source's draw and the intended one agree |
| GifRender.DrawOverflowAdvancesEarly | src/render/gif.rs:255 | A frame with delay 6554 is left after 4 ms by the source, while the intended draw still shows it |
| GifProvider.GroupHistogram | src/providers/gif.rs:46-65 | The byte-counting loop counts each complete group of four bytes exactly once, in the bucket of its colour average |
| GifProvider.EveryGroupCountedOnce | src/providers/gif.rs:46-65 | The histogram accounts for every complete group of four bytes in the buffer |
| GifProvider.MedianColorIsFirstReaching | src/providers/gif.rs:39-80 | The median is the first value at which half the groups are reached |
| GifProvider.PackFrame | src/providers/gif.rs:104-136 | Every frame packs into exactly 640 bytes, the full display |
| GifProvider.ConvertToArray | src/providers/gif.rs:82-85 | Converting to the frame array succeeds iff the data has exactly the frame size, and keeps it |
| GifProvider.PackedFramesConvert | src/providers/gif.rs:106-137 | A packed frame always converts |
| GifProvider.PackFrameBits | src/providers/gif.rs:106-137 | A frame pixel is on iff it lies in the GIF and its mean reaches the median |
| GifProvider.CounterStep | src/providers/gif.rs:149-154 | The counter stays between 0 and the frame count, so the frame shown is always a valid index |
| GifProvider.Register | src/providers/gif.rs:88-140 | The provider keeps one packed frame per decoded frame, in decoding order |
| GifProvider.Render | src/providers/gif.rs:156-171 | Every display pixel the packed frame covers shows that frame's bit |
| GifProvider.CounterRepeatsFirstFrame | src/providers/gif.rs:149-154 | As written, the counter shows frame 0 twice after wrapping: two frames play as 0, 1, 0, 0, 1 |
| GifProvider.IntendedShownIsModular | src/providers/gif.rs:149-154 | The corrected counter shows frame (start + k) modulo the frame count at step k |
| GifProvider.RenderShowsFrame | src/providers/gif.rs:148-175 | Rendering a frame shows exactly its packed bits on the display |
| Mpris.ParseStatus | apex-mpris2/src/player.rs:231-242 | Parsing succeeds iff the string is "Playing", "Paused" or "Stopped", naming that status; anything else is "Bad playback status!" |
| Mpris.StatusRoundTrip | apex-mpris2/src/player.rs:235-240 | Parsing a status's name gives the status back, and names are distinct |
| Mpris.Title | apex-mpris2/src/player.rs:32-36 | The title is found iff the metadata holds a string under xesam:title, else an error naming it |
| Mpris.Artists | apex-mpris2/src/player.rs:38-44 | The artists are found iff a string list is stored under xesam:artist, and are joined with ", " |
| Mpris.ArtistsJoin | apex-mpris2/src/player.rs:38-44 | One artist is shown as is, two as "a, b", none as the empty string |
| Strings.Join | apex-mpris2/src/player.rs:42 | Joining no parts gives the empty string, and one part gives that part |
| Mpris.ArtistsAppend | apex-mpris2/src/player.rs:38-44 | One more artist appends ", " and that name to the joined string |
| Strings.JoinAppend | apex-mpris2/src/player.rs:42 | Joining one more part appends the separator and the part |
| Strings.JoinLength | apex-mpris2/src/player.rs:42 | A join is as long as its parts plus one separator between each two |
| Mpris.Length | apex-mpris2/src/player.rs:46-52 | The length is found iff an integer is stored under mpris:length, and is below 2^64 |
| Mpris.LengthOfStored | apex-mpris2/src/player.rs:46-52 | A u64 length is kept, a non-negative i64 is kept, and a negative i64 is reinterpreted as a value of at least 2^63 |
| Mpris.ListNames | apex-mpris2/src/player.rs:117-136 | The result holds exactly the listed names that start with org.mpris.MediaPlayer2. |
| Mpris.ListNamesKeepsOrder | apex-mpris2/src/player.rs:129-133 | The filter keeps the bus order |
| Mpris.ListNamesIdempotent | apex-mpris2/src/player.rs:129-133 | Filtering twice is filtering once |
| Mpris.SelectPlayer | apex-mpris2/src/player.rs:146-172 | No player is chosen iff none is wanted; otherwise the first wanted name is chosen |
| Mpris.WaitForPlayerSound | apex-mpris2/src/player.rs:138-177 | A found player was listed in some round, is an MPRIS name and was wanted there; an error is some round's bus error |
| Mpris.WaitForPlayerStopsAtFirstFind | apex-mpris2/src/player.rs:138-177 | Later rounds do not matter once a player is found or an error occurs |
| Mpris.WaitForPlayer | apex-mpris2/src/player.rs:138-177 | A found player has an MPRIS bus name. No player means that every round's bus call succeeded and chose no player |
| Mpris.PreferenceIgnoresStatus | apex-mpris2/src/player.rs:150-155 | With a preference set, the playback status of the players never affects the choice |
| Mpris.GetProgress | apex-mpris2/src/player.rs:196-202 | A progress is produced iff metadata, position and status all succeed and the status parses; otherwise the first error in that order |
| Music.PreferredPlayer | src/providers/music.rs:125-134 | The preferred player is the configured value iff the key is present |
| Music.NewRenderer | src/providers/music.rs:158-174 | The two lines start with the unknown title and artist, unscrolled, at their fixed positions |
| Music.Base | src/providers/music.rs:177-180 | The play template is used iff the player is playing, and the pause template otherwise |
| Music.Refresh | src/providers/music.rs:203-213 | A changed text is rebuilt unscrolled; the same text scrolls by one iff it is longer than 16 UTF-8 bytes |
| Music.ScrollCountsRepeats | src/providers/music.rs:203-213 | After k updates with the same text, a long line has scrolled k times (k - 1 if the first changed it) and a short line has not moved |
| Music.Update | src/providers/music.rs:176-219 | The update fails iff the length, the artists or the title is missing, in that order, leaving the lines unchanged. Otherwise the lines show the title and the artists |
| Music.UpdateLayers | src/providers/music.rs:215-216 | Outside both text windows the frame is the template with the progress bar; in the title window it is that with the title drawn |
| Music.Stream | src/providers/music.rs:254-286 | Each player session begins with the idle frame; a failed player search ends the stream with its error |
| Music.TrackStopsAtFailure | src/providers/music.rs:278-284 | Tracking a player stops at the first failed progress read |
| Music.Track | src/providers/music.rs:272-285 | Tracking yields at most one frame per progress read and keeps the renderer's invariant |
| Music.StreamContinues | src/providers/music.rs:258-286 | Sessions that found a player concatenate: the stream over a + b is the stream over a followed by the stream over b |
| Music.FailureEndsStream | src/providers/music.rs:263-267 | A failure is the last item and is preceded by the idle frame |
| Coindesk.ParseTarget | src/providers/coindesk.rs:53-63 | Each currency is chosen iff the string is one of its spellings; anything else is "Unknown target currency!" |
| Coindesk.CodesParse | src/providers/coindesk.rs:56-61 | Each currency parses from its upper- and lower-case ISO code |
| Coindesk.ParseIsCaseSensitive | src/providers/coindesk.rs:56-61 | "Usd", "Gbp" and "Eur" are rejected while "Euro" is accepted |
| Coindesk.ConfiguredTarget | src/providers/coindesk.rs:75-83 | A missing key means US dollars, a parseable value is used and anything else falls back to US dollars |
| Coindesk.ConfiguredTargetIff | src/providers/coindesk.rs:78-81 | Euros and pounds are shown iff configured by one of their spellings; everything else shows dollars |
| Coindesk.Format | src/providers/coindesk.rs:65-73 | The formatted price is the rate plus one sign, after it for euros and before it otherwise |
| Coindesk.FormatRoundTrip | src/providers/coindesk.rs:66-72 | Removing the sign gives back the chosen rate verbatim, and the sign identifies the currency |

## Left out

- **Asynchronous machinery.** Async streams, `select!`, tokio timers, the tick interval,
  hotkey listeners, D-Bus transport, USB/HTTP/simulator devices and the Windows backend are
  all left out. Streams are sequences, `select!` is a sequence of winning events, time is
  a parameter and device failure is given by the index of the first failing operation.
- **Third-party inputs.** Font rendering, embedded bitmaps and image decoding (the `image`
  and `gif` crates, `fit_image`) are inputs: a renderer function, pixel sequences and
  decoded frames.
- **Music progress bar.** The bar is a floating-point computation in
  src/providers/music.rs:191-197. It is a parameter of `Music.Update`.
- **Other providers.** Fetching the Coindesk price over HTTP and decoding its JSON are left
  out; a price is its three rate strings. The clock, sysinfo, image-provider and debug
  providers are not part of this model.
- **Settings type.** Settings are a map from keys to strings. The configuration library's
  type errors (a table where a string was expected) are not modelled.
- **Design disagreements.** The scheduler follows the code where the design description
  differs. Providers are not sorted by priority, there is no automatic advance timer, the
  display is not cleared at start-up, and `start` never calls `device.shutdown()`.
- Text.Scroll: the scroll counter is a u32 and its `+= 1` overflow (after 2^32 ticks) is
  not modelled; the counter is unbounded.
- Scheduler.NextIndex: the wrapping add is modelled for a usize counter. Rust's debug-build
  panics on arithmetic overflow are not modelled anywhere: the model follows release builds.
  This covers the wrapping frame wait of src/render/gif.rs:255 in `GifRender.Draw`, the
  underflow `size - 1` with no providers in `Scheduler.PrevIndex`, and the `u32` casts and
  sums in `Notifications.RequiredTicks` and `GifRender.NumPixels`.
- ImageRender.Draw: requires at least one frame; the source panics on an empty frame list
  by indexing.
- GifRender.Draw: requires at least one frame, for the same reason.
- GifProvider.Render: requires the frame index to be in range. For a GIF with no frames the
  source sets the frame to 0 and panics indexing `decoded_frames[0]`; that panic is not
  modelled.
- Notifications.Build: does not ensure that the built title can be rendered, because the
  renderer is a parameter. The source's fixed 6x10 font draws every title 10 pixels high;
  `BuiltTitleRenderable` takes that as a hypothesis about the renderer.
- **Shared frame counter.** The GIF provider's global `ACTUAL_FRAME` counter is modelled as
  a value threaded through `CounterStep`, not as shared mutable state.
- Notifications.RequiredTicksBounds: proved only for titles shorter than 2^28 characters,
  where the u32 arithmetic cannot wrap.
- Music.Update: requires the font to render at least 10 pixels high (the
  `LineHigh` predicate), as the built-in font does. It treats the scrollable text's rebuild
  as infallible, so the error branch of `if let Ok(false)` is not modelled.
- Mpris.GetProgress: the position's i64 range is not enforced, because the model
  takes the D-Bus value as an unbounded integer.
- Mpris.Length: requires the stored length to be within its declared integer type (`WellTyped`).
  The generated bindings guarantee this; the model does not derive it.
- **Unused player trait.** The `apex-music` player trait (length as `i64`) and
  src/dbus/mpris2.rs are not part of this model. The provider uses the apex-mpris2 client
  directly.

## Findings

| source | as written | input that shows it | evidently intended | confidence | as-written member | corrected member |
|---|---|---|---|---|---|---|
| src/render/gif.rs:255 | the frame wait is `delay * 10` computed in `u16`, which wraps in a release build | a frame delay of 6554 (65.54 s) waits 4 ms | ten milliseconds per delay unit, computed in a wider type | not executed | GifRender.DrawOverflowAdvancesEarly | GifRender.DrawIntended |
| src/providers/gif.rs:149-154 | the shared frame counter resets to 0 after the last frame and then shows `counter` before incrementing, so frame 0 is shown twice in a row | a two-frame GIF plays 0, 1, 0, 0, 1 | each step shows the next frame modulo the frame count | not executed | GifProvider.CounterRepeatsFirstFrame | GifProvider.IntendedShownIsModular |
