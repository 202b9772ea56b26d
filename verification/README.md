# A verified model of Doom engine cores

This project models eight pieces of the Doom engine kept under `doom_src/` and proves what they are
for. Code that changes things in place is modelled as classes and methods over arrays and fields;
each method is proved against a specification, and lemmas state what the specification means.
`dafny verify dfyconfig.toml` checks everything.

| file | what it models |
|---|---|
| `SoundFlood.dfy` | noise alerts: a depth-first flood of the sector graph in which sound crosses at most one sound-blocking line |
| `TicLoop.dfy` | the lockstep tic loop: the 128-slot command ring, the clock debt, tic duplication, and the consistency ring it shares with the game |
| `DemoFormat.dfy`, `Demo.dfy`, `LowresTurn.dfy` | demo files: header, records, end marker, the growing buffer with read-back, playback, and turns rounded with a carry |
| `Melt.dfy` | the screen melt: column positions, the animated screen, its end |
| `Clip.dfy`, `ClipMeaning.dfy`, `Bresenham.dfy`, `Automap.dfy` | automap lines: the zoomed window, integer clipping, integer line drawing, and what all three mean for the true segment |
| `StringReplace.dfy` | the two passes of string replacement and the copy that pads with zeros |
| `MemStream.dfy` | memory streams with a 32-bit position: writes, reads and seeks, and whole runs of them |
| `FixedPoint.dfy`, `Tracer.dfy` | saturating fixed-point division; the homing missile's turn in wrapping angles |
| `CArith.dfy`, `Grid.dfy`, `TicCommand.dfy` | C integer arithmetic, two-dimensional indexing, and the command record |

## Where the code falls short of its purpose

* `FixedDiv` divides by zero for the one pair of operands (INT_MIN, 0); a divisor of INT_MIN always
  saturates, and a dividend of INT_MIN keeps its quotient exactly when the divisor is at least
  65536 or below -65536 (`FixedPoint.DividesByZeroOnlyAtMin`, `MinDivisorSaturates`,
  `MinDividendExact`). Multiplying back recovers every dividend but INT_MIN, and INT_MIN exactly when
  the divisor is 65536 or more in magnitude (`FixedPoint.MulUndoesDiv`). `abs(INT_MIN)` is taken to
  return INT_MIN, as two's complement code does.
* A command whose forwardmove is -128 starts with the end marker. Playback of a stream is complete
  exactly when it holds no such command (`DemoFormat.PlayStream`); the recorder itself stops at the
  first one and its file stays readable (`Demo.Demo.WriteTiccmd`). The game clamps its own player's
  movement to plus or minus 50 (doom_src/g_game.c:553-556), so at the normal speed such a command
  comes from another player only; `-turbo` raises the clamp to as much as 200
  (doom_src/d_main.c:1333-1349), and 128 is stored as -128.
* With an empty needle the sizing pass of `M_StringReplace` never moves on
  (`StringReplace.SizingPassAdvances`), so the method requires a needle.
* `mem_fwrite` takes its bytes into the stream exactly when they end below 2^32
  (`MemStream.MemFile.Fwrite`), since the position is an `unsigned int`.
* For the same reason reads deliver a stream in order, however they are cut up, exactly when it is
  shorter than 2^32 bytes (`MemStream.InOrderIffShort`). On a longer one, filling the first 2^32 bytes
  takes the position back to the start (`MemStream.LongStreamWraps`), and a single run of reads is in
  order exactly when it never wraps (`MemStream.RunInOrder`).
* `mem_fread` forms `nmemb * size` in a `size_t`; its answer counts the items delivered exactly when
  the product fits or what is left of it still exceeds the stream
  (`MemStream.ItemsAreDelivered`).
* `mem_fseek` to offset 0 from the end is refused exactly when the stream is shorter than 2^32 bytes,
  and on a longer one it goes somewhere else (`MemStream.MemFile.Fseek`).
* The melt of a screen of odd width leaves the words past the last full row of columns as they were,
  so it ends with the new screen exactly when those were the same on both (`Melt.MeltedInFull`).
* A map line that lies in the frame's top row is never drawn. `CYMTOF` sends the window's lower edge
  to row f_h, just below the frame, so row 0 is the band of the map just above the upper edge, and
  lines there are turned away in map coordinates (`AutomapLines.Automap.TopRowIsLost`, and
  `TopRowLine` for a line at scale 1.0); only one with an end on the very edge can escape. At a scale that divides without a rest
  nothing else on the frame is lost (`OnlyTopRowIsLost`); rounding the window's size can cost up to
  three rows or columns more. In general the lines on the frame that are lost are exactly those beyond
  the window's top or right (`DrawnUnlessBeyond`), and none of them reaches four pixels in at a sound
  scale (`DeepLineIsDrawn`).
* The bottom clip of `AM_clipMline` computes the crossing with row f_h but stores row f_h-1. The
  bound of one pixel for each round covers this.
* `wipe_doMelt` with zero ticks reports that it is done, whatever is on the screen; the statement
  that done means finished is for one tick or more (`Melt.Wipe.DoMelt`).

## Model

| member | source | states |
|---|---|---|
| SoundFlood.World.NoiseAlert | doom_src/p_enemy.c:151-159 | a sector ends up stamped, labelled with its level and given the target exactly when some open walk with at most one sound-blocking line reaches it; every other sector keeps its three fields; no sector is expanded more than twice; stamps stay valid for the next alert |
| SoundFlood.World.RecursiveSound | doom_src/p_enemy.c:102-141 | with any set of sectors still being worked on, every other sector's lines stay satisfied, labels only improve and to no better than the caller's, untouched labels mean untouched fields; it ends on every graph because the remaining work drops |
| SoundFlood.World.CrossLine | doom_src/p_enemy.c:118-140 | one more line of the sector is satisfied and the earlier ones still are, whichever branch the line takes |
| SoundFlood.LevelIsLeast | doom_src/p_enemy.c:93-100 | the level is one more than the least number of sound-blocking lines on any walk |
| SoundFlood.RelaxedAlong | doom_src/p_enemy.c:118-140 | once every sector's lines are satisfied, a label exceeds the start's by at most the lines crossed, on every walk |
| SoundFlood.FloodedIsLevel | doom_src/p_enemy.c:102-159 | after the flood each label is the sector's level, both that it is reached and that it is not reached better |
| SoundFlood.Enter | doom_src/p_enemy.c:114-116 | stamping a sector keeps the flood's invariant and strictly lowers the remaining work, cycles or not |
| SoundFlood.NoiseCrosses | doom_src/p_enemy.c:121-139 | sound crosses a two-sided line with an opening from either of its sectors into the other, at a cost of one if the line blocks sound |
| SoundFlood.NoiseLeaves | doom_src/p_enemy.c:118-140 | sound heard in another sector left over such a line, on to where it is heard with what remains |
| SoundFlood.HearingIsMutual | doom_src/p_enemy.c:118-140 | when both sectors of every line list it, each hears the other across as many sound-blocking lines |
| SoundFlood.TwoRooms | doom_src/p_enemy.c:102-159 | of two rooms with a line between them the second hears a noise in the first exactly when the line is two-sided and open, and at level two exactly when it blocks sound |
| Tracer.Missile.Trace | doom_src/p_enemy.c:1014-1055 | turn, overshoot test and snap together steer to the target when it is within 0xc000000 and otherwise turn by that much the shorter way, counterclockwise when exactly opposite, on every fourth tic with a live target |
| Tracer.SteeringDistance | doom_src/p_enemy.c:1004-1055 | n turns at a fixed bearing lower the wrapped distance by n times TRACEANGLE, to no less than zero |
| Tracer.ReachesBearing | doom_src/p_enemy.c:1004-1055 | the bearing is reached exactly when n turns cover the distance; eleven always do, an opposite heading needs all eleven |
| FixedPoint.DividesByZeroOnlyAtMin | doom_src/m_fixed.c:46-60 | the division is reached with divisor zero for one pair of operands only |
| FixedPoint.GuardBoundsQuotient | doom_src/m_fixed.c:48-51 | the guard fires exactly when the dividend is at least 2^14 times the divisor |
| FixedPoint.QuotientFits | doom_src/m_fixed.c:46-60 | past the guard the divisor is not zero, the quotient has magnitude below 2^30 and nothing is cut off |
| FixedPoint.MulUndoesDiv | doom_src/m_fixed.c:33-60 | whenever the division is reached, multiplying back recovers the dividend to within abs(b)/65536 + 1 exactly unless the dividend is INT_MIN and the divisor below 65536 in magnitude |
| FixedPoint.MinDividendLost | doom_src/m_fixed.c:33-60 | for such a divisor the product misses INT_MIN by 32768 or more |
| FixedPoint.MulRounds | doom_src/m_fixed.c:33-38 | a product is rounded down and cut to 32 bits, and one that fits is only rounded |
| FixedPoint.SaturatesBySign | doom_src/m_fixed.c:48-51 | a saturated quotient is INT_MAX for operands on the same side, zero counting as positive, and INT_MIN otherwise |
| FixedPoint.MinDivisorSaturates | doom_src/m_fixed.c:46-51 | what a divisor of INT_MIN yields |
| FixedPoint.MinDividendExact | doom_src/m_fixed.c:46-60 | the quotient of INT_MIN is cut to 32 bits, and exactly which divisors keep it |
| TicLoop.Loop.constructor | doom_src/d_loop.c:305-308 | the loop starts in a valid state with nothing built, received or run |
| TicLoop.SlotsComeRound | doom_src/d_loop.c:188-191 | the first 128 tics take the ring's slots in order, and after that they come round again |
| TicLoop.Loop.BuildNewTic | doom_src/d_loop.c:136-194 | a tic is built exactly while making is less than 5, 3 or 9 tics ahead, as the sync mode says, and overwrites no slot that is still to run in either ring |
| TicLoop.Loop.BuildTiccmd | doom_src/g_game.c:332-335 | the command carries the consistency byte of the slot its tic will take |
| TicLoop.BuildKeeps | doom_src/d_loop.c:188-191 | storing the new tic leaves every pending local and remote slot, and its consistency byte, as recorded |
| TicLoop.ReceiveKeeps | doom_src/d_loop.c:283-296 | storing a received tic leaves every pending slot as recorded |
| TicLoop.RunKeeps | doom_src/d_loop.c:787-820 | running the oldest tic changes its own slots only, in both rings |
| TicLoop.Loop.ReceiveTic | doom_src/d_loop.c:271-297 | a delivered tic joins the history and the ring without touching the local player's part |
| TicLoop.Loop.PollNetwork | doom_src/d_loop.c:215-222 | the network delivers in order, as far as the ring has room |
| TicLoop.Loop.TicsDue | doom_src/d_loop.c:224-240 | tics earned and owed after a reading; granted - skiptics - lasttime is constant; the debt is never negative |
| TicLoop.Loop.NetUpdate | doom_src/d_loop.c:203-250 | exactly the tics due are built, up to the window, and exactly what the network offers is received, up to the ring's room; the clock account is conserved; nothing under singletics |
| TicLoop.GrantedIsRunningMax | doom_src/d_loop.c:224-240 | over any readings, backward steps included, the tics granted are the running maximum less the starting point |
| TicLoop.Loop.GetLowTic | doom_src/d_loop.c:568-585 | the least of what was made and, in a net game, received |
| TicLoop.Loop.OldNetSync | doom_src/d_loop.c:591-638 | the key player, or nobody, adapts nothing; others shift the clock and owe a tic as the last four frames say |
| TicLoop.TicdupSquash | doom_src/d_loop.c:672-684 | every command loses its chat character and, with bit 128 set, its buttons, and nothing else |
| TicLoop.SinglePlayerClear | doom_src/d_loop.c:689-700 | everybody but the local player is taken out of the game |
| TicLoop.Decided | doom_src/d_loop.c:735-763 | with tics at hand at least one is run and no more than there are; with none, one is waited for |
| TicLoop.DecidedInFull | doom_src/d_loop.c:739-763 | under the new sync all tics at hand run; under the old all that the time allows, a backlog of one is left alone and a larger one shrinks by one |
| TicLoop.Loop.AvailableIsLeast | doom_src/d_loop.c:721-735 | the tics at hand are the least of what will be built, the window of the sync mode and what will have arrived |
| TicLoop.Loop.ChooseCounts | doom_src/d_loop.c:735-763 | how many tics to run in each sync mode |
| TicLoop.Loop.Prepare | doom_src/d_loop.c:716-735 | the elapsed time and the tics at hand after the first update are those the state before determines |
| TicLoop.Loop.WaitForTics | doom_src/d_loop.c:765-785 | ends with the tics there, at once if they were, or with the clock moved on; the lowtic error cannot fire |
| TicLoop.SteadyClockTicks | doom_src/d_loop.c:765-785 | a game clock that gains at least one with every reading meets what the wait assumes of it |
| TicLoop.Loop.RunTic | doom_src/g_game.c:906-958 | with the byte still in its slot the consistency failure cannot fire, and the slot takes the new byte on a first duplicate of a net game only |
| TicLoop.Loop.RunDuplicate | doom_src/d_loop.c:805-817 | one run gets the set as built or squashed, and the gametic error cannot fire |
| TicLoop.Loop.RunDuplicates | doom_src/d_loop.c:787-818 | one more tic is run, once for each duplicate, and recorded in the history; the rest of both rings is untouched |
| TicLoop.Loop.TryRunTics | doom_src/d_loop.c:706-821 | validity, which holds the window, both rings and the whole history, is kept; with tics at hand, all of them run under the new sync or when the elapsed time covers them; otherwise a backlog of one is left alone, a larger one shrinks by one, and one tic runs when no time passed; with none at hand one runs or the clock moved on |
| TicLoop.Loop.SetSingletics | doom_src/g_game.c:2220-2235 | the mode in which each pass builds one tic can be turned on in any valid state |
| TicLoop.Loop.EveryTicRanRight | doom_src/d_loop.c:787-820 | every game tic ever run got the command built for its tic, exact first and squashed after, and what was received for the others or nobody else |
| TicLoop.Loop.RunInFields | doom_src/d_loop.c:787-820 | in the fields: the first run of a tic has the commands as built and received, later runs the same without chat and special buttons; alone, nobody else is in the game |
| TicLoop.Loop.GrantedIsElapsed | doom_src/d_loop.c:224-240 | as long as OldNetSync did not interfere, the tics granted are how far the clock's latest reading is past the start |
| TicLoop.Loop.WindowBounded | doom_src/d_loop.c:157-173 | making stays between 0 and 5, 3 or 9 tics ahead of the game in every reachable state |
| DemoFormat.DecodeEncode | doom_src/g_game.c:1898-1980 | a record reads back as the command with its turn cut to what the format holds, over any live command |
| DemoFormat.EncodeDecode | doom_src/g_game.c:1898-1980 | re-recording what was read reproduces the bytes of any record |
| DemoFormat.RecordLayout | doom_src/g_game.c:1956-1980 | the bytes of a record in order, with the turn low byte first or its high byte alone |
| DemoFormat.RecordFields | doom_src/g_game.c:1906-1921 | each field read is the byte or pair of bytes at its place, as a signed number; the rest of the command stays |
| DemoFormat.RecordedIs | doom_src/g_game.c:1956-1980 | the short format rounds the turn down to a multiple of 256, and nothing else that is recorded changes |
| DemoFormat.PlayStream | doom_src/g_game.c:1898-1922 | playback yields every recorded command and stops at the marker exactly when no command looks like the marker |
| DemoFormat.RecordAt | doom_src/g_game.c:1898-1922 | a record anywhere in a buffer reads back as recorded, and looks like the marker exactly for forwardmove -128 |
| DemoFormat.FilePlaysBack | doom_src/g_game.c:1898-2198 | a finished file gives back its format, header and commands, over whatever live commands |
| DemoFormat.HeaderRoundTrip | doom_src/g_game.c:2087-2198 | every header field comes back modulo 256, so the header survives exactly when its fields are bytes |
| Demo.Demo.RecordDemo | doom_src/g_game.c:2020-2037 | a fresh buffer of the requested size, recording |
| Demo.Demo.BeginRecording | doom_src/g_game.c:2058-2098 | the buffer holds exactly the header, version byte first, with room for what follows |
| Demo.Demo.IncreaseDemoBuffer | doom_src/g_game.c:1926-1954 | twice the room, every stretch of the old buffer in place |
| Demo.Demo.ReadTiccmd | doom_src/g_game.c:1898-1922 | one record over the command and the pointer moved past it, or the end of the demo at the marker |
| Demo.Demo.WriteTiccmd | doom_src/g_game.c:1956-2003 | recording goes on exactly unless the quit key, the full vanilla buffer or a marker byte ends it; the stream grows by the command, the read-back is what was kept, 11 bytes stay free; an ended recording leaves the stream before it plus the marker |
| Demo.Demo.CheckDemoStatus | doom_src/g_game.c:2248-2300 | playback stops, or the recording is closed with the marker and its file written: header, commands taken, marker |
| Demo.Demo.DoPlayDemo | doom_src/g_game.c:2152-2215 | the header is read back and the version byte selects the record format, or leaves it |
| Demo.Demo.PlayDemo | doom_src/g_game.c:1898-2215 | driving the reader until playback stops yields exactly the commands of the stream after the header |
| Demo.RecordAll | doom_src/g_game.c:1926-2300 | driving the recorder to its end leaves the file of the commands up to the first that looks like the marker or to the vanilla limit |
| Demo.RecordAndPlay | doom_src/g_game.c:1898-2300 | a demo recorded and then played gives back its format, header and every command as the recorder itself played it |
| LowresTurn.TurnBuilder.Round | doom_src/g_game.c:580-596 | a multiple of 256 is emitted, the carry stays in -128 to 127, and nothing is lost but a full circle |
| LowresTurn.RoundAll | doom_src/g_game.c:580-596 | tic after tic, the rounding makes up a run of the kind the following statements are about |
| LowresTurn.RoundsOnce | doom_src/g_game.c:585-595 | these conditions leave one result only |
| LowresTurn.RunConserves | doom_src/g_game.c:580-596 | over a whole run, turns emitted plus the carry equal turns requested plus the first carry modulo 65536 |
| LowresTurn.RoundedRunIsLossless | doom_src/g_game.c:2070-2072 | commands built with low-resolution turning play back from the short format exactly |
| Melt.ColMajorXform | doom_src/f_wipe.c:43-62 | the image is transposed in place, through the copy |
| Melt.Wipe.InitMelt | doom_src/f_wipe.c:133-161 | the screen shows the old image, both images are column by column, every column starts where the random numbers put it, by the same rule in the array's own values |
| Melt.StartAt | doom_src/f_wipe.c:152-158 | starting positions lie in -15 to 0 and neighbours differ by one at most |
| Melt.StartFollows | doom_src/f_wipe.c:151-158 | the first position is minus the first number modulo 16, and each other one is off its neighbour by its number modulo 3 less one, unless that would leave the range |
| Melt.CopyDown | doom_src/f_wipe.c:192-208 | one column's rows are overwritten from the source and no other pixel changes |
| Melt.SlidShows | doom_src/f_wipe.c:188-208 | the two copies leave the new image above and the old one shifted below |
| Melt.Wipe.ScreenIs | doom_src/f_wipe.c:188-208 | word by word, a column holds the new screen above its slide and the old one below, moved down by as much |
| Melt.TransposedIs | doom_src/f_wipe.c:54-56 | word (x, y) of the image is at place x * height + y |
| Melt.Wipe.MeltColumn | doom_src/f_wipe.c:182-210 | a column moves by its step and every column keeps showing what its position says |
| Melt.Wipe.DoMelt | doom_src/f_wipe.c:164-216 | after any number of ticks every pixel is where the positions say; done exactly when nothing was left to move, and then the screen is the new image on every word of the columns |
| Melt.Wipe.ScreenWipe | doom_src/f_wipe.c:256-293 | the first call sets the melt up and each call moves every column by its ticks; it is done exactly when the columns were all down before the call |
| Melt.Wipe.WipeScreen | doom_src/d_main.c:313-328 | the loop ends, with the call after the one that brought the last column down, within 16 calls more than there are rows (43 on 200 rows), and at an even width the screen is the new one |
| Melt.FinishedInTime | doom_src/f_wipe.c:180-215 | however the columns start, all are down in that many ticks |
| Melt.MeltedInFull | doom_src/f_wipe.c:140-146 | that is the whole new screen for every even width, and otherwise exactly when the words left over agree |
| Melt.SlideByIs | doom_src/f_wipe.c:182-203 | the position after n ticks in closed form |
| Melt.FallSteps | doom_src/f_wipe.c:188-191 | a falling column moves by one more than the way fallen so far, and by 8 once that is 16 |
| Melt.FinishedOn200Rows | doom_src/f_wipe.c:164-216 | on 200 rows every column is down exactly when 27 ticks have passed since the last one started to move |
| Melt.SlideByAdds | doom_src/f_wipe.c:180-212 | however the ticks are split over calls, only their number matters |
| Melt.MeltEnds | doom_src/f_wipe.c:180-215 | when a column is finished, in ticks: on 200 rows exactly after 27 plus its wait, 42 at most |
| Melt.TickLeavesLess | doom_src/f_wipe.c:182-211 | the rows left, summed, strictly drop on every tick until none is left |
| Clip.CutInBox | doom_src/am_map.c:926-953 | the moved endpoint lies in the segment's bounding box |
| Clip.NoOverflow | doom_src/am_map.c:926-953 | no product of a round leaves 32 bits |
| Clip.StepMoves | doom_src/am_map.c:919-969 | in the coordinates: which endpoint moves, to which edge, and the other coordinate by the quotient rounded toward zero |
| Clip.ScaledTowardZero | doom_src/am_map.c:926-953 | the division rounds toward zero for lines of either slope |
| Clip.StepProgresses | doom_src/am_map.c:960-972 | each round lowers the number of coordinates out of range or rejects |
| Clip.ClipLoop | doom_src/am_map.c:916-975 | an accepted line lies in the window and in the box of the original, and an endpoint inside never moves |
| Clip.Rounds | doom_src/am_map.c:916-973 | the loop body runs at most four times |
| ClipMeaning.CutIsClose | doom_src/am_map.c:926-953 | the moved endpoint is within a pixel of the true crossing |
| ClipMeaning.InsideIsKept | doom_src/am_map.c:926-969 | what the segment has inside the window lies on the kept part |
| ClipMeaning.ClippedIsNear | doom_src/am_map.c:916-975 | the accepted ends lie within one pixel per round, four at most, of the true segment |
| ClipMeaning.DeepPointsAreKept | doom_src/am_map.c:913-975 | a segment that reaches four pixels into the window is never rejected and stays near every such point |
| AutomapLines.Automap.ToFrameKeepsOrder | doom_src/am_map.c:103-106 | the map keeps its orientation on the screen, as long as nothing wraps |
| AutomapLines.Automap.FtomFits | doom_src/am_map.c:100-103 | at a sound scale the frame's size, taken to the map and back, loses three pixels at most |
| AutomapLines.Automap.OriginalLimitsAreSound | doom_src/am_map.c:384-387 | for a window of 320 by 168 pixels all scales above 640 up to the greatest are sound |
| AutomapLines.Automap.CongruentMeans | doom_src/am_map.c:293-303 | congruent coordinates are equal when they are 32-bit ones, and differ by whole laps otherwise |
| AutomapLines.Automap.ActivateNewScale | doom_src/am_map.c:293-303 | the new size is that of the frame at the scale, the window's centre stays, and at a sound scale the map window gets the frame's size |
| AutomapLines.Automap.ScaledWindowFits | doom_src/am_map.c:293-303 | such a window covers the frame but for three pixels |
| AutomapLines.Automap.ChangeWindowScale | doom_src/am_map.c:742-755 | whatever the zoom factor, the scale ends between its limits, or at one of them when they cross, and the window keeps the frame's size |
| AutomapLines.Automap.ClipMline | doom_src/am_map.c:847-976 | the method decides and computes exactly the specified clip in at most four rounds |
| AutomapLines.Automap.CutOutside | doom_src/am_map.c:926-958 | each branch computes the cut, with no division by zero and no overflow |
| Bresenham.MinorNext | doom_src/am_map.c:1025-1037 | the sign of the decision variable says whether the nearest minor position moves |
| Bresenham.MinorNearest | doom_src/am_map.c:1023-1054 | the minor position is the whole number nearest to the true one |
| Bresenham.PixelsInBox | doom_src/am_map.c:1023-1054 | the line runs from a exactly to b and stays in its box |
| Bresenham.PixelNear | doom_src/am_map.c:1023-1054 | every pixel is exact on the major axis and within half a pixel on the minor one |
| AutomapLines.Automap.DrawFline | doom_src/am_map.c:984-1055 | exactly the bytes y * f_w + x of the line's pixels change, one for each major step, and all get the colour; nothing changes when an end is outside |
| AutomapLines.Automap.DrawFlat | doom_src/am_map.c:1023-1038 | the loop along x plots exactly the line's pixels |
| AutomapLines.Automap.DrawSteep | doom_src/am_map.c:1039-1054 | the loop along y plots exactly the line's pixels |
| AutomapLines.Automap.DrawMline | doom_src/am_map.c:1061-1070 | what is visible is drawn in full, at the bytes y * f_w + x of its pixels, so the early return is never taken, and what is not leaves the frame buffer alone, as do both past the window |
| AutomapLines.Automap.DrawnNearSegment | doom_src/am_map.c:1061-1070 | every drawn pixel is in the window and within 4.5 pixels of the true segment |
| AutomapLines.Automap.TurnedAwayIsOutside | doom_src/am_map.c:878-902 | a line turned away at the left or the bottom of the map window lies outside the frame as well |
| AutomapLines.Automap.DrawnUnlessBeyond | doom_src/am_map.c:878-975 | while nothing wraps, what is drawn of a line is all of it that lies on the frame, or nothing exactly when both ends are beyond the map window's top or both beyond its right |
| AutomapLines.Automap.DeepLineIsDrawn | doom_src/am_map.c:847-1070 | a line that reaches four pixels into the window is drawn exactly unless it is beyond the map window's top or right, and when the window fits none that reaches so far is |
| AutomapLines.Automap.TopRowIsLost | doom_src/am_map.c:103-106 | no line with both ends in the frame's top row or above is drawn, unless an end lies on the window's upper edge |
| AutomapLines.Automap.OnlyTopRowIsLost | doom_src/am_map.c:878-902 | at a scale that divides without a rest, a line on the frame is lost exactly when both ends are above the window, and then both are in the top row or above |
| AutomapLines.Automap.TopRowLine | doom_src/am_map.c:878-905 | a line in the top row of a window of 320 by 168 pixels at scale 1.0 that is on the frame and is not drawn |
| StringReplace.ReplaceJoins | doom_src/m_misc.c:325-363 | the strncmp scan replaces exactly the separators the strstr search finds |
| StringReplace.PiecesAreLeftmost | doom_src/m_misc.c:325-335 | the pieces hold no occurrence, so the occurrences are the leftmost ones that do not overlap |
| StringReplace.ReplaceLength | doom_src/m_misc.c:322-336 | the length the first pass adds up is the length of the result |
| StringReplace.ReplaceByItself | doom_src/m_misc.c:311-368 | replacing the needle by itself changes nothing |
| StringReplace.SizingPassAdvances | doom_src/m_misc.c:325-334 | the first pass moves on exactly when the needle is not empty |
| StringReplace.StringCopy | doom_src/m_misc.c:373-389 | the copy is cut, padded and terminated within its size, and the answer tells whether all of it fitted |
| StringReplace.ResultLength | doom_src/m_misc.c:320-336 | the first pass arrives at the exact size in wrapping arithmetic |
| StringReplace.StringReplace | doom_src/m_misc.c:311-368 | the buffer holds the replaced string and its terminator and nothing else; the inner copy never truncates |
| MemStream.MemFile.OpenRead | doom_src/memio.c:42-54 | a stream over the caller's bytes, at their start |
| MemStream.MemFile.OpenWrite | doom_src/memio.c:90-103 | an empty stream over a fresh buffer |
| MemStream.ItemsAreDelivered | doom_src/memio.c:67-79 | the answer counts the items delivered exactly when the product fits in a size_t or its remainder exceeds what is left, and then never more than were asked for |
| MemStream.MemFile.Fread | doom_src/memio.c:58-86 | whole items only, copied from the position on; the rest of the caller's buffer is untouched, and it needs room for what is delivered only |
| MemStream.MemFile.Fwrite | doom_src/memio.c:107-141 | the contents become the old ones overwritten at the position exactly when the bytes end below 2^32, and otherwise as much of that as the old length or the wrapped position reaches |
| MemStream.WrittenAt | doom_src/memio.c:132-135 | byte by byte: the bytes written stand at the position and all others stay |
| MemStream.MemFile.Reserve | doom_src/memio.c:120-131 | doubling ends with enough room and loses no byte |
| MemStream.MemFile.Fseek | doom_src/memio.c:164-195 | a target below 2^32 is taken exactly when it lies before the end, and is then the position; one before the start is refused unless the stream reaches the lap it falls in; the end itself is refused exactly on streams shorter than 2^32 bytes |
| MemStream.Target | doom_src/memio.c:166-190 | the 32-bit target lies in the stream exactly when some multiple of 2^32 brings the true one into it |
| MemStream.WritesConcatenate | doom_src/memio.c:107-141 | writes one after another are one write of everything |
| MemStream.RunInOrder | doom_src/memio.c:58-86 | a run of reads, cut up in any way, delivers the bytes in order and skips none exactly when it never wraps |
| MemStream.LongStreamWraps | doom_src/memio.c:58-86 | a stream of 2^32 bytes or more on which two reads deliver its first byte out of order |
| MemStream.InOrderIffShort | doom_src/memio.c:58-86 | every run of reads is in order exactly when the stream is shorter than 2^32 bytes |
| MemStream.RunIsWhole | doom_src/memio.c:58-86 | a run that asks for what is there gets all of it |
| MemStream.RunExhausts | doom_src/memio.c:58-86 | byte-sized reads get all they ask for or empty the stream |
| MemStream.ReadChunks | doom_src/memio.c:58-86 | repeated mem_fread delivers exactly the bytes, and leaves the position, that these statements are about |
| MemStream.WriteAll | doom_src/memio.c:90-141 | a new stream holds what was written, in order, exactly when it comes to less than 2^32 bytes |
| MemStream.WriteThenRead | doom_src/memio.c:42-147 | what was written, however cut up, is what is read back, however cut up |

## Left out

- SoundFlood.World.NoiseAlert: validcount is unbounded here; after 2^31 floods the C counter would overflow.
- SoundFlood.World.RecursiveSound: a line's opening is a fixed number, as P_LineOpening would find it during one alert.
- TicLoop.Loop.PollNetwork: that the server keeps no more than 128 tics ahead is assumed of the network, which the build compiles out.
- TicLoop.Loop.RunTic: of G_Ticker only the local player's consistency check is modelled, with the console player fixed.
- TicLoop.Loop.WaitForTics: the game clock is assumed to pass every value at last; I_Sleep does nothing.
- Demo.Demo.CheckDemoStatus: timed demos, the next demo in the loop, and the settings reset after playback.
- Demo.Demo.RecordDemo: a negative -maxdemo argument, which asks for a negative amount of memory.
- Demo.Demo.BeginRecording: recording after a -maxdemo argument of zero, which would overrun the buffer while the header is written.
- Melt.Wipe.InitMelt: the very last byte of a screen with an odd number of bytes.
- MemStream.MemFile.Fwrite: size_t overflow of size * nmemb and of the doubled allocation.
- StringReplace.StringReplace: results of 2^64 characters and more; allocation always succeeds.
- AutomapLines.Automap.DeepLineIsDrawn: lines so far away that the subtraction or the product wraps.
- AutomapLines.Automap.ActivateNewScale: overflow of the window's coordinates is taken to wrap, as two's complement code does.
- mem_ftell and mem_fclose, which only hand out or free fields.
- Drone mode of the tic loop: it builds no commands and exists in multiplayer builds only.
- The rest of A_Tracer: momentum, slope and smoke, which rest on lookup tables and spawning.
- The colour wipe, the menu drawn over a melt, and the choice of a wipe.
- Fields of the command that Doom never sets (buttons2, inventory, lookfly, arti).
- Overflow of the growing demo buffer's length and of the tic counters.
- The kernel, the other game under quake_src, and all drawing, sound, menu, map and platform code.
