# Verified model of the ADS-B receiver's cores

The firmware receives 1090 MHz samples from an SDR dongle, finds and checks Mode S frames, keeps a
table of aircraft, draws a radar over a coastline map, and serves the result over TCP feeds, a serial
console, SSH and a web form. This project models the parts of it whose correctness is not visible from
one function at a time, and proves what those parts promise.

| module | what it models |
|---|---|
| `Cpr` | compact position decoding (`main/cpr.c`), against the encoder of section A.1.7 of RTCA DO-260B |
| `Parity`, `Bursts` | the 24-bit parity table, the one- and two-bit fixers (`main/mode-s.c`), against polynomial division (section 3.1.2.3.3 of ICAO Annex 10 Volume IV) |
| `ModeS`, `Repairs` | which frames are believed and how damaged ones are reported: format patch, parity check, interrogator codes, hashed address cache |
| `Scanner`, `Signal` | the sample scanner: preamble, bit slicing, phase correction with retry, in-place restore; and the signal it is for |
| `Geometry`, `Clip`, `MapLand`, `Bake`, `Compass` | even-odd membership, the map generator's clipper, the scanline fill, the generator's choice of outlines, all of them together, and which way up the drawing is |
| `Spsc`, `Slots`, `IqRing`, `Feed` | the lock-free rings as interleaved steps, and two of them in place |
| `Beast` | the byte-stuffed feed format as a code, and what a short write does to it |
| `Console` | the serial task, the SSH task and the draw task sharing one console |
| `Tracker`, `Antenna` | the aircraft table and its plausibility gate; the antenna position handed between cores |
| `Tuner` | the fractional-N synthesiser's divider, integer part and fraction loop |
| `Output` | the frame buffer's and the SSH stream's CR LF expansion |
| `WebForm` | in-place percent-decoding and bounded HTML escaping |
| `Arithmetic`, `Basics` | division facts and small types used by several of them |

Code that changes things step by step is imperative here too: classes with the source's fields, arrays
written in place, loops with invariants, each method proved against a function of the old state. What
runs on several tasks is a step machine over the single reads and writes of shared variables, and its
theorems are about every run.

`double` and `float` are exact reals. Clocks, USB completions, keystrokes, command effects and the
distance on the ground are parameters.

## Where the code and its comments differ

- `main/class_driver.c:626-630` says the fourth implausible fix in a row is taken; the code takes the
  third (`Tracker.ThirdIsTaken`), and a fix accepted because the old one had aged out does not reset the
  count (`Tracker.CountSurvivesAge`).
- `main/feed_beast.c:191-192` says the next lone 0x1A followed by a valid type byte resynchronises after a short
  write. The frame after the cut is read exactly when the bytes sent do not end in an unpaired 0x1A
  (`Beast.ResyncExactly`); otherwise that frame is lost and one false frame may appear.
- `main/class_driver.c:458-460` rules out a torn position for the receiver's task. It can be torn without any
  two sets overlapping: one setter's next set falls between the reads of the copy, and every row is
  ranged from the old latitude and the new longitude (`Antenna.LoneSetTears`). Sets that do not overlap give
  whole copies when, besides, no field is written between a copy's first and last read and no set is part
  written at the first (`Antenna.CalmCopyIsWhole`); either condition missing, the copy can tear
  (`Antenna.AnyCopyCanTear`, `Antenna.PartWrittenTears`), and the second is needed even if nothing is written from
  the lowering of the flag to the end of the copy (`Antenna.QuietCopyTears`). At rest the working position is
  the last set's if that one overlaps no other (`Antenna.LatestWins`), and otherwise may be one setter's
  latitude and another's longitude (`Antenna.OverlapCanTear`, `Antenna.OverlapTears`).
- `main/cpr.c:184` wraps only longitudes above 180. Past the antimeridian to the east the relative decoder then
  refuses the frame; past it to the west it returns the point unwrapped, below -180
  (`Cpr.RelativeExact` says exactly when).
- The seconds in the address cache are unsigned 32-bit but compared as signed: an address stored 2^31 s or
  more into the clock is never recognised (`ModeS.StampAge`), unless the clock is then set back
  (`ModeS.SetBackLooksYoung`).
- `main/map.c:22-25` relies on the rings being clipped with their parity kept. The clipping does keep it, but
  `tools/mkmap.py:130-131` drops outlines before it: all without a vertex within half a degree of the box. A cell is
  then drawn right exactly when it is not land of the dropped ones (`Bake.DroppingDecides`). For an antenna so
  far inland that a coast surrounds the box, nothing is drawn (`Bake.SurroundingLandIsLost`), and with lakes in the
  box they are drawn as land and the land as water (`Bake.InlandIsInverted`).
- `main/map.c:36-39` stops at 128 crossings in a row; the row is then right exactly when an even number of the
  dropped ones lie at or left of the cell (`MapLand.ScanlineExact`; `MapLand.SixtyFifthIsNotDrawn` is a row
  that is wrong).
- `main/mode-s.c:1256-1259` says phase correction makes a one after a one more likely to be read as a one. A
  sample of 52429 or more, which the magnitudes reach, wraps at 16 bits when raised and may be read as a zero
  (`Signal.LoudOneWraps`).
- `main/mode-s.c:867-870` says a residue of at most seven low bits is an interrogator code, not a bit error. One
  wrong bit among the last seven of a squitter leaves such a residue too (`Repairs.LowBitReadsAsCode`).
- `main/shell.c:776-798` has the SSH task wait for the repaint in flight, while that repaint may be waiting for
  the SSH task to drain the ring. Only the 200 ms bound of `main/net_ssh.c:163-174` gets the two apart
  (`Console.OnlyTimeOutBreaksIt`), once at most for each screen left (`Console.OneMoreRun`).

## Model

| member | source | states |
|---|---|---|
| `Cpr.AirborneRecovers` | main/cpr.c:106-128 | for any two positions at most 0.05 degrees apart, encoded even and odd: never impossible, a fix exactly when the two grid latitudes share an NL band, and then the newer position to within half a quantum |
| `Cpr.SurfaceRecovers` | main/cpr.c:133-166 | the same for surface pairs at most 0.0125 degrees apart and any reference nearer than 45 degrees (less half a quantum): the right quadrant, poles and equator included |
| `Cpr.LonRecovered` | main/cpr.c:83-104 | the longitude index puts back the chosen frame's grid longitude, up to whole spans |
| `Cpr.RelativeExact` | main/cpr.c:168-190 | for every frame and reference: succeeds exactly when the nearest point with that fraction is on the globe in latitude and not east of 180; returns it, west of -180 unwrapped, and it is within half a cell |
| `Cpr.RelativeRecovers` | main/cpr.c:168-190 | from any reference less than half a cell away it returns the very point global decoding returns for that frame |
| `Cpr.FixOnGlobe` | main/cpr.c:106-166 | whatever the numbers in two frames, a fix has a latitude within 90 degrees and a longitude from -180 to below 180 |
| `Cpr.OffGlobeIsImpossible` | main/cpr.c:114-116 | a pair that stands for latitude 122 is refused |
| `Parity.ComputeChecksum` | main/mode-s.c:90-107 | the loop over the bits computes the table sum over the message prefix |
| `Parity.ChecksumIsRemainder` | main/mode-s.c:57-107 | the table sum is the remainder of the data bits shifted by 24, divided by 0x1FFF409: some quotient and exactly this remainder |
| `Parity.RemainderUnique` | main/mode-s.c:57-107 | that quotient and remainder are the only ones, so the checksum is the division's result |
| `Parity.FixSingleBitErrors` | main/mode-s.c:122-150 | returns the first bit whose flip makes the message valid and flips just that bit, or -1 and an untouched message |
| `Parity.FixerFindsTheBit` | main/mode-s.c:122-150 | a bit is returned exactly when flipping it gives a valid message: there is never a second candidate |
| `Parity.SingleErrorCorrected` | main/mode-s.c:122-150 | every valid message with any one bit flipped is restored, and valid messages are left alone |
| `Parity.DoubleErrorDetected` | main/mode-s.c:90-107 | two flipped bits never look valid |
| `Parity.OddErrorsDetected` | main/mode-s.c:90-107 | no odd number of flipped bits looks valid, so with the row above valid messages differ in at least four bits |
| `Parity.FixTwoBitsErrors` | main/mode-s.c:155-195 | flips the first pair of bits that makes the message valid, or changes nothing |
| `Parity.FirstPairSound` | main/mode-s.c:155-195 | a returned pair leaves a valid message |
| `Parity.FirstPairComplete` | main/mode-s.c:155-195 | a pair is returned whenever any exists |
| `Bursts.ValidIsMultiple` | main/mode-s.c:57-107 | the bits of a valid message, parity field and all, are a multiple of the generator |
| `Bursts.BurstDetected` | main/mode-s.c:90-107 | a valid message wrong in any bits within 24 consecutive ones no longer looks valid |
| `Bursts.PairFoundIsThePair` | main/mode-s.c:155-195 | after any two errors a pair is found, and it is the pair in error unless the two pairs span more than 24 bits |
| `ModeS.WhitelistsCleanSquitters` | main/mode-s.c:951-975 | the cache is written exactly for DF11 and DF17 frames with a clean, uncorrected parity and no interrogator code |
| `ModeS.SlotHistory` | main/mode-s.c:199-217 | over any run, a cache slot holds the address and second of the last clean squitter hashed to it |
| `ModeS.SeenIffVouched` | main/mode-s.c:212-229 | an address is recognised exactly when a clean squitter at most 60 s old carried it and no later one took its slot |
| `ModeS.StampAge` | main/mode-s.c:222-229 | the truncated, signed age test equals the true one for stamps below 2^31, whatever the clock does, and never passes above while the clock is not set back |
| `ModeS.SetBackLooksYoung` | main/mode-s.c:222-229 | a stamp passes the age test with a clock set back far before it |
| `ModeS.BelievedAddressesAreEarned` | main/mode-s.c:246-288 | over any run, an address-masked reply is accepted exactly when parity xor checksum is an address so vouched for, and that address is the one stored |
| `ModeS.InterrogatedRepliesAreEarned` | main/mode-s.c:867-879 | a DF11 reply with an interrogator code is accepted exactly when its address is vouched for, unchanged, with that code |
| `ModeS.PatchMarksErrors` | main/mode-s.c:833-855 | a patched format byte always marks a corrected bit, so it never reaches the whitelist |
| `ModeS.HashValues` | main/mode-s.c:199-208 | the cache slots of four addresses |
| `Repairs.CleanIsReported` | main/mode-s.c:856-975 | a clean DF11, DF17 or DF18 frame is accepted untouched, under its own address, and whitelisted unless it is DF18 |
| `Repairs.OneBitIsRepaired` | main/mode-s.c:833-903 | with repairs on, a DF17 frame with any bit wrong, a DF18 frame with any bit past the format wrong or a DF11 frame with any such bit but the last seven wrong is accepted as the message sent, under the address sent, marked with the bit, and not whitelisted |
| `Repairs.LowBitReadsAsCode` | main/mode-s.c:867-879 | one of the last seven bits of a DF11 frame wrong: accepted, uncorrected, exactly when the cache vouches for its address |
| `Repairs.CodeBits` | main/mode-s.c:867-871 | of one wrong bit in a DF11 frame, exactly the last seven leave a residue that reads as a code |
| `Repairs.TwoBitsRepaired` | main/mode-s.c:876-893 | two bits of a DF17 frame wrong past the format: aggressive decoding reports a valid message under that message's address, marked with both bits, and the one sent unless the bits span more than 24; otherwise the frame is refused as it is |
| `Repairs.NotRepaired` | main/mode-s.c:875-893 | with repairs off a frame that fails its check is refused as it is |
| `Repairs.ReportedAsItIs` | main/mode-s.c:856-903 | whatever was received, a frame of a format with its own parity is reported under the address in the message reported, and if accepted without a code that message is valid |
| `ModeS.Decoder.AddRecentlySeenIcaoAddr` | main/mode-s.c:212-217 | overwrites the hashed slot and no other |
| `ModeS.Decoder.IcaoAddrWasRecentlySeen` | main/mode-s.c:222-229 | reads the hashed slot as the cache specification does |
| `ModeS.Decoder.BruteForceAp` | main/mode-s.c:246-288 | strips the checksum from a copy's last three bytes and believes the result only if the cache does |
| `ModeS.Decoder.PatchFormat` | main/mode-s.c:827-856 | the in-place format patch is the specification's |
| `ModeS.Decoder.CheckInPlace` | main/mode-s.c:856-894 | parity check, code recognition and repair in place give the outcome and message whose meaning the `Repairs` rows state |
| `ModeS.Decoder.Decode` | main/mode-s.c:818-975 | the whole decision and the new cache are those the run theorems and the `Repairs` rows are about |
| `Scanner.StepAdvances` | main/mode-s.c:1313-1501 | every iteration moves to a later offset or to the single retry, so the scan ends |
| `Scanner.AtMostTwice` | main/mode-s.c:1313-1501 | no offset is sliced more than twice |
| `Scanner.ErrorsCount` | main/mode-s.c:1376-1407 | only the first bit can be undecidable, so at most one error is ever counted |
| `Scanner.CleanSlicing` | main/mode-s.c:1376-1425 | with no error counted every sliced bit is 0 or 1 and the packed frame carries exactly those bits |
| `Scanner.DeliveriesDisjoint` | main/mode-s.c:1452-1501 | accepted frames occupy disjoint sample ranges in order; with the CRC check on, all deliveries are accepted and timestamps strictly increase |
| `Scanner.NoSquitterMissed` | main/mode-s.c:1313-1501 | every offset whose first attempt slices a clean squitter is delivered as that message, unless an accepted frame covers it |
| `Scanner.DeliveriesHavePulses` | main/mode-s.c:1327-1367 | every delivery starts where four pulses stand out over quiet samples, and its samples are 1275 apart on average over 56 or 112 bits |
| `Scanner.ScanCounted` | main/mode-s.c:1452-1501 | the statistics are the numbers of accepted, repaired and, when refused frames are delivered too, refused retries |
| `Signal.PackedExactly` | main/mode-s.c:1376-1425 | an attempt packs a message without error exactly when each bit's two samples are in its order, or less than 256 apart where the bit repeats the one before |
| `Signal.TransmittedIsSliced` | main/mode-s.c:1313-1450 | four pulses over samples under two thirds of them, then bits as above, 1275 apart on average: the attempt there passes preamble, errors and noise, and packs the squitter sent, of either length |
| `Signal.TransmittedIsDelivered` | main/mode-s.c:1313-1501 | such a squitter anywhere in a buffer is delivered bit for bit, with the time of its first sample, unless an accepted frame from before covers its start |
| `Signal.CorrectedCarries` | main/mode-s.c:1260-1278 | samples short by less than a quarter after a one that repeats, or over by less than a fifth after a zero that repeats, and 256 clear of either otherwise, show their bits once corrected |
| `Signal.BlurredIsDelivered` | main/mode-s.c:1313-1501 | a squitter received so, its preamble leaking over a third of a pulse beside it, and refused at the first attempt, is delivered bit for bit by the corrected one, unless an accepted frame from before covers its start |
| `Signal.LoudOneWraps` | main/mode-s.c:1266-1276 | from 52429 on a sample raised by a quarter wraps at 16 bits, and a one may be read as a zero |
| `Signal.RoundTrip` | main/mode-s.c:1283-1501 | every clean squitter, modulated and scanned, comes out as it went in, stamped with the buffer's time and the pulses' level |
| `Scanner.ApplyPhaseCorrection` | main/mode-s.c:1260-1278 | the in-place pass is the payload correction of `Signal.CorrectedCarries`, each step seeing the sample corrected before it, at 16 bits |
| `Scanner.SliceBits` | main/mode-s.c:1376-1407 | the loop's bits and error count are the slicing specification's |
| `Scanner.PackBits` | main/mode-s.c:1414-1425 | eight bits a byte, first bit highest, as the frame specification |
| `Scanner.AverageContrast` | main/mode-s.c:1432-1438 | the mean contrast the loudness test uses |
| `Scanner.Detect` | main/mode-s.c:1283-1501 | the loop with its unsigned step back delivers exactly what the scan of the `Signal` rows does, leaves that cache, and restores every sample |
| `Clip.ClipPass` | tools/mkmap.py:54-60 | one pass against one side is the clipping specification |
| `Clip.ClipRing` | tools/mkmap.py:51-75 | four passes, cut short to nothing below three points |
| `Clip.ClipSideParity` | tools/mkmap.py:54-66 | one pass keeps even-odd parity around every point on the kept side |
| `Clip.ClippingPreservesMeaning` | tools/mkmap.py:51-75 | the clipped ring has the original's even-odd parity around every point strictly inside the box, the empty result included |
| `Clip.ClippedInBox` | tools/mkmap.py:51-75 | every output vertex lies in the box |
| `MapLand.InsertCrossing` | main/map.c:43-45 | shifting in place inserts a crossing into the sorted table |
| `MapLand.CollectRow` | main/map.c:34-47 | the table holds the first 128 crossings of the row, sorted |
| `MapLand.FillRow` | main/map.c:49-55 | filling between pairs lights exactly the cells with an odd number of tabled crossings at or left of them |
| `MapLand.RingCrossesEvenly` | main/map.c:37-42 | a closed ring crosses a row an even number of times |
| `MapLand.MapLand` | main/map.c:26-56 | the nested loops call back for exactly the cells the `Compass` rows and those below are about |
| `MapLand.GridOrder` | main/map.c:49-55 | cells come in strictly increasing order, so none is called twice |
| `MapLand.ScanlineExact` | main/map.c:26-56 | a cell is drawn as its ray count says exactly when an even number of crossings beyond the 128th lie at or left of it |
| `MapLand.SixtyFifthIsNotDrawn` | main/map.c:36-39 | of 65 unit squares side by side the last is land and is not drawn |
| `MapLand.ScanlineRefinesRay` | main/map.c:26-56 | with at most 128 crossings in the row, a cell is drawn exactly when an odd number of edges cross left of its centre |
| `Compass.CellShowsKm` | main/map.c:28-53 | with at most 128 crossings in its row, cell (y, x) is drawn exactly when the point (x - cx) times a cell's width east and (cy - y) times its height north of the antenna, in kilometres, is on land |
| `Compass.NorthIsAbove` | main/map.c:31-31 | land north of the antenna is drawn above its row only, however many crossings there are |
| `Compass.SouthIsBelow` | main/map.c:31-31 | land south of it below only |
| `Compass.EastIsRight` | main/map.c:50-51 | land east of it is drawn right of its column only, land west of it left only |
| `Compass.NorthMovesUp` | main/map.c:31-31 | land moved north by a cell's height is drawn one row up |
| `Compass.EastMovesRight` | main/map.c:50-51 | land moved east by a cell's width is drawn one column to the right |
| `Bake.BakeMap` | tools/mkmap.py:123-135 | the loop writes, in order, what clipping leaves of the projected outlines that have a vertex in the window |
| `Bake.WindowInLengths` | tools/mkmap.py:119-131 | the window in degrees is, in lengths, the box and half a degree's length around it |
| `Bake.ProjectedFromAntenna` | tools/mkmap.py:113-117 | the antenna is the origin, and a degree east or north is its length further along x or y |
| `Bake.ClippedThenDrawn` | main/map.c:22-25 | rings clipped and then drawn: a cell inside the box is drawn exactly when it is inside an odd number of the unclipped rings |
| `Bake.DroppingDecides` | tools/mkmap.py:128-135 | of the map the generator writes, a cell inside the box is drawn as the original outlines have it exactly when it is not land of the outlines dropped for want of a vertex in the window |
| `Bake.DrawnLandIsOriginalLand` | tools/mkmap.py:128-135 | so the drawn land is the original land if each outline has a vertex in the window or lies beyond one side of the box |
| `Bake.SurroundingLandIsLost` | tools/mkmap.py:130-131 | for every antenna and box, an outline around the box is dropped and nothing is drawn where all is land |
| `Bake.InlandIsInverted` | tools/mkmap.py:130-131 | with it beside outlines as above, every cell inside the box is drawn exactly when it is not land |
| `Spsc.SpaceIsTrue` | main/esp_libusb.c:269-273 | the free space computed from wrapped counters and a stale tail is the true one for that tail |
| `Spsc.StoreHitsFreeSlot` | main/feed_beast.c:74-88 | a store never lands in a slot of an element not freed |
| `Spsc.NextInv` | main/feed_beast.c:60-98 | every step of either task keeps the ring invariant |
| `Spsc.RingIsAQueue` | main/feed_beast.c:158-174 | in every interleaving, with stale views and any number of counter wraps: drained elements are a prefix of the accepted ones, and accepted plus dropped plus in flight is what was offered |
| `Spsc.ProducerIsCareful` | main/feed_avr.c:57-86 | in every reachable state stores leave waiting elements alone, and an offer is dropped exactly when it does not fit the producer's view |
| `Spsc.ReadsStartOnI` | main/class_driver.c:1210-1220 | with whole samples offered and taken, every read begins on an I byte however many chunks were dropped |
| `Slots.PushedContents` | main/esp_libusb.c:274-282 | writing a fitting chunk at the head appends it to the waiting queue |
| `Slots.ReadContents` | main/esp_libusb.c:439-447 | advancing the tail removes from the front of the queue |
| `Slots.StepIsQueueStep` | main/esp_libusb.c:269-283 | in every interleaving, what lies between the counters changes only as a queue does: a publish appends the whole chunk, a release removes what was copied, nothing else is visible |
| `IqRing.Ring.Push` | main/esp_libusb.c:269-283 | a chunk joins the queue whole exactly when it fits, in one or two copies; else it is counted dropped and nothing else changes |
| `IqRing.Ring.Read` | main/esp_libusb.c:433-449 | as many bytes as are there and asked for move from the queue's front to the buffer, and no other byte of the buffer changes |
| `IqRing.Ring.Reset` | main/esp_libusb.c:451-451 | the queue is empty |
| `IqRing.Ring.Avail` | main/esp_libusb.c:452-452 | the number of bytes waiting |
| `IqRing.FillBuffer` | main/class_driver.c:1210-1220 | with any chunks arriving before each read: the buffer is filled, unless 201 reads in a row found nothing and nothing arrived before them that the ring could keep; buffer then ring hold what the ring held then the chunks kept, whole and in order, the others are counted, and none is refused that had room; with whole samples, every buffer, full or short, starts on an I byte and so will the next |
| `Beast.BigEndianValue` | main/feed_beast.c:82-82 | six bytes carry the timestamp modulo 2^48 |
| `Beast.EncodeIsLine` | main/feed_beast.c:79-95 | the wire bytes depend on the timestamp modulo 2^48 and the clamped signal level only |
| `Beast.WireBytes` | main/feed_beast.c:79-95 | byte for byte: 0x1A, the type character, six stamp bytes, the level from 0 to 255, the data, when none of these is 0x1A |
| `Beast.LineFits` | main/feed_beast.c:28-30 | no line is longer than its slot |
| `Beast.RoundTrip` | main/feed_beast.c:1-5 | parsing the concatenation of any frames returns those frames |
| `Beast.UniquelyDecodable` | main/feed_beast.c:1-5 | two runs of frames with the same bytes are the same run |
| `Beast.ShortWrite` | main/feed_beast.c:176-194 | whole frames, a cut frame, whole frames: a cut between byte pairs costs only the cut frame; another costs one more and at most one false frame |
| `Beast.ResyncExactly` | main/feed_beast.c:181-192 | the reader picks up the very next frame, whatever it is, exactly when the bytes sent do not end in an unpaired 0x1A |
| `Feed.LayStamp` | main/feed_beast.c:82-82 | the shifting loop writes the six timestamp bytes |
| `Feed.Format` | main/feed_beast.c:79-95 | the moving pointer writes exactly the encoding, within the slot |
| `Feed.Feed.Push` | main/feed_beast.c:60-98 | with a client, a 7- or 14-byte message becomes one more waiting line, or one more drop when 128 wait; anything else changes nothing |
| `Feed.Feed.Drain` | main/feed_beast.c:158-174 | the batch is the oldest lines end to end, never beyond its buffer, and it stops only when none is left or a longest line might not fit |
| `Feed.BatchParses` | main/feed_beast.c:158-174 | a drained batch reads back as the frames pushed, in order |
| `Console.SerialKeeps` | main/shell.c:800-824 | each step of the serial task keeps the assertions of all three tasks |
| `Console.SessionKeeps` | main/shell.c:833-893 | each step of the SSH task keeps them, with the lock held only during a claim |
| `Console.PaintKeeps` | main/screen.c:118-124 | each step of a repaint keeps them |
| `Console.SlotFree` | main/screen.c:97-110 | a transport showing nothing finds one of the two display slots free |
| `Console.EditTypes` | main/shell.c:669-713 | an edit adds only bytes of the task that makes it, below the line limit |
| `Console.LineIsTyped` | main/shell.c:669-713 | printable bytes stand in the line in the order typed, the first 159 |
| `Console.ControlsEdit` | main/shell.c:669-713 | a rubout takes back the last byte, an interrupt or kill the line, no other control byte changes it |
| `Console.AlwaysSafe` | main/shell.c:565-601 | in every interleaving: one command at a time, the line buffer edited only by the transport that owns the console, no key of one transport in the other's command, a session screen only under session ownership, no serial screen under serial ownership (but for the one step of handing over), display slots suffice, output goes to its own transport and never into a repaint, repaints go only where that screen is in front; the lock and the repaints are waited for in one order, and the only circle, the session and a repaint with no room in its ring, arises after the session's sink is gone |
| `Console.OneMoreRun` | main/shell.c:776-798 | in every interleaving, once the session's sink is detached at most one more run is written to it before the session goes on, so at most one time-out is waited for |
| `Console.OnlyTimeOutBreaksIt` | main/net_ssh.c:163-174 | a run from boot after which the session waits for the repaint and the repaint for the session, and no step of either is possible but the time-out |
| `Tracker.LocatedSound` | main/class_driver.c:1010-1031 | a position message leaves the row's range shown exactly when fix and antenna are known, and its reject count below three |
| `Tracker.Table.FindOrCreate` | main/class_driver.c:423-444 | the aircraft's row, else a blank row in the first idle place, else none and nothing changed; addresses stay distinct |
| `Tracker.Table.OnMessage` | main/class_driver.c:872-875 | only that aircraft's row changes, to the one the fix rows below are about, and the range record only for a new fix under 600 km |
| `Tracker.Table.PosApply` | main/class_driver.c:497-503 | every active row's range is rederived and the record starts over |
| `Tracker.Table.Tick` | main/class_driver.c:650-686 | at most once a second, rows silent for over a minute go, and no others |
| `Tracker.AtMostTwoDropped` | main/class_driver.c:631-644 | in every run of an aircraft's frames, ticks and antenna positions that takes no candidate fix, at most two are dropped |
| `Tracker.EveryThirdFarIsTaken` | main/class_driver.c:631-644 | over any run in which the row stays and no candidate is near a fix that judges it, exactly every third candidate out of reach is taken, counted on over fixes that aged out |
| `Tracker.ThirdIsTaken` | main/class_driver.c:626-644 | from a clean count, whatever lies between them, the first two candidates out of reach are dropped and the third becomes the fix |
| `Tracker.CountSurvivesAge` | main/class_driver.c:631-644 | after an aged-out fix is replaced, the next candidate out of reach is taken at once exactly when two had been dropped before |
| `Tracker.FirstFixIsTrue` | main/class_driver.c:595-624 | an aircraft's first two frames of opposite parity within ten seconds put it where it was, to half a quantum, exactly when they share an NL band |
| `Tracker.FirstSurfaceFixIsTrue` | main/class_driver.c:595-606 | the same for an aircraft on the ground within 0.0125 degrees, with an antenna position nearer than 45 degrees less half a quantum: a fix exactly when the two share an NL band, and then where it was |
| `Tracker.NextSurfaceFixIsTrue` | main/class_driver.c:595-608 | with a fix already, the antenna or else that fix telling the quadrant, such a pair puts the row where the aircraft was if the gate takes it, and is counted as dropped if not |
| `Tracker.FirstFixNeedsPair` | main/class_driver.c:595-614 | a first fix comes only of a frame of the other parity, of the same kind, at most ten seconds off, and on the ground only with an antenna position |
| `Tracker.LoneFrameStaysNear` | main/class_driver.c:617-624 | a frame without such a partner moves a row only from a fix under ten minutes old and by at most 185 km |
| `Tracker.TakenExactly` | main/class_driver.c:631-644 | a candidate is taken exactly when there is no fix, or one ten minutes old, or it is within 2 km and half a kilometre a second and 185 km, or two were dropped |
| `Tracker.MovesExactly` | main/class_driver.c:1010-1031 | a message that gives a new fix stamps it, any other leaves the fix alone |
| `Tracker.NextFixIsTrue` | main/class_driver.c:617-639 | with a young fix less than half a cell away and no usable pair, one frame from within reach, airborne or surface, puts the row where the aircraft was, to half a quantum |
| `Antenna.NextInv` | main/class_driver.c:497-512 | where the copies differ, the flag is up, a setter is writing, or the field is still to be copied |
| `Antenna.HandedOff` | main/class_driver.c:1201-1201 | with any number of overlapping setters, once all is quiet the working position equals the configured one |
| `Antenna.LatestWins` | main/class_driver.c:542-543 | at rest it is the value set last, if that set overlaps no other, whatever those before it did |
| `Antenna.OverlapCanTear` | main/class_driver.c:542-543 | from every state with nothing being copied where one set could begin while another has a field left, some continuation comes to rest torn |
| `Antenna.OverlapTears` | main/class_driver.c:542-543 | a run of two overlapping sets after which it is neither's value |
| `Antenna.CalmCopyIsWhole` | main/class_driver.c:458-460 | with sets that do not overlap, none part written at a copy's first read and no write between its first and last, every range is derived from one set's value |
| `Antenna.PartWrittenTears` | main/class_driver.c:497-503 | a copy begun while a set is part written and left in peace from then on ends torn |
| `Antenna.QuietCopyTears` | main/class_driver.c:497-503 | a copy can end torn with no write between the lowering of the flag and its end |
| `Antenna.AnyCopyCanTear` | main/class_driver.c:497-503 | any copy with a field read and a field left can end torn by one more set of any setter, begun when the set it may be in is over, at a position nobody set if a coordinate is left |
| `Antenna.CopySafeExactly` | main/class_driver.c:497-503 | as long as there is a setter, a copy that has read a field is safe from tearing, whatever comes before its end, exactly when it has read them all, of one set |
| `Antenna.LoneSetTears` | main/class_driver.c:458-460 | one setter, two sets one after the other: ranges from the first one's latitude and the second one's longitude |
| `Tuner.DividerUnique` | main/tuner_r82xx.c:494-508 | some divider brings a frequency into the oscillator's band exactly from 27657 kHz to below 1770 MHz, and then one only |
| `Tuner.FindDivider` | main/tuner_r82xx.c:494-508 | the doubling loop finds it, with its logarithm, or none fits |
| `Tuner.IntegerRecovered` | main/tuner_r82xx.c:538-541 | the register byte gives the integer part back |
| `Tuner.CalculateSdm` | main/tuner_r82xx.c:556-566 | for any reference and fraction the loop ends, with the specified fraction or at the division by its shifted-out 16-bit divisor |
| `Tuner.SdmAccurate` | main/tuner_r82xx.c:556-566 | the fraction fits 16 bits and is at most 2 kHz short or 14 kHz over |
| `Tuner.SdmSafeExactly` | main/tuner_r82xx.c:556-566 | the loop is safe for every fraction exactly when twice the reference is below 65536 kHz |
| `Tuner.Synthesise` | main/tuner_r82xx.c:528-566 | in the source's word widths, for any frequency and reference: with an oscillator frequency in band, a reference up to 32767 kHz and an integer part that fits its byte, it refuses exactly when the integer part is above the limit and else programs the oscillator to within 16 kHz; it divides by zero only with other references |
| `Tuner.SetPll` | main/tuner_r82xx.c:449-572 | for any frequency and reference: a tunable frequency whose integer part fits its byte is programmed to within 16 kHz at the oscillator, with the divider's number of halvings beside it, or needs an integer part above the limit; no supported reference ever divides by zero |
| `Output.Frame.Flush` | main/screen.c:126-146 | what has been sent is the expansion of all text written, and nothing waits |
| `Output.Frame.Puts` | main/screen.c:178-185 | the text grows by the string, cut at the buffer's size |
| `Output.Frame.Rep` | main/screen.c:193-203 | the text grows by the repeated byte, in as many buffers as it takes |
| `Output.Frame.Printf` | main/screen.c:205-214 | the text grows by the formatted string, whole if under 512 bytes |
| `Output.Paint` | main/screen.c:265-270 | any calls, flushed, reach the sink as the CR LF expansion of the whole text, wherever the buffer filled up |
| `Output.ExpandJoin` | main/net_ssh.c:229-253 | expanding two pieces, the second told the first's last byte, is expanding their concatenation |
| `Output.SplitsDoNotMatter` | main/net_ssh.c:229-253 | any split of a stream into writes offers the same bytes |
| `Output.ExpandMeans` | main/net_ssh.c:229-253 | after expansion every line feed has its carriage return, nothing but carriage returns was added, and exactly as many as were lacking |
| `Output.Session.RingPush` | main/net_ssh.c:108-121 | as much as there is room for is queued in order, or nothing if the mutex is taken |
| `Output.Session.RingPop` | main/net_ssh.c:128-139 | the oldest bytes, as many as asked for and there |
| `Output.Session.OutWrite` | main/net_ssh.c:229-253 | of each piece of the write's expansion, in order, the prefix there is room for is queued and the rest counted as dropped; all that was ever queued stays a subsequence of the stream offered |
| `Output.Session.LogPush` | main/net_ssh.c:123-126 | exactly the prefix there is room for is queued, and the rest counted |
| `Output.PiecesAreExpansion` | main/net_ssh.c:229-253 | the pieces a write is cut into, end to end, are its CR LF expansion |
| `Output.QueuedWhole` | main/net_ssh.c:229-253 | with room for all and the mutex free, nothing is lost |
| `Output.QueuedUntilFull` | main/net_ssh.c:108-126 | with the mutex free the queue takes the offered bytes in order until 16383 are in it, and none after |
| `Output.QueuedAtMost` | main/net_ssh.c:108-126 | if as many bytes are queued as were offered, they are the ones offered |
| `WebForm.UrlDecode` | main/web_config.c:54-68 | the string becomes its decoding in place, terminated, never reading past the terminator or writing past the reader |
| `WebForm.HexDigits` | main/web_config.c:43-49 | the sixteen digits of either case have their places as values, and nothing else has one |
| `WebForm.DecodeInvertsEncode` | main/web_config.c:51-68 | however each byte was percent-encoded, decoding gives the text back |
| `WebForm.PlainIsKept` | main/web_config.c:51-68 | text without a plus or a well-formed escape is left as it is, stray percent signs included |
| `WebForm.HtmlEscape` | main/web_config.c:73-83 | the output is terminated, holds no raw angle bracket or quote, is the escape of a prefix, reads back as that prefix, and is cut only where fewer than eight bytes are left |
| `WebForm.EscapedIsHarmless` | main/web_config.c:70-83 | escaped text holds no angle bracket or quote, and every ampersand begins one of the four entities |
| `WebForm.UnescapeInvertsEscape` | main/web_config.c:73-83 | reading the entities back gives the text |
| `WebForm.NetworkNameFits` | main/web_config.c:107-114 | 32 bytes always fit 224 |

## Left out

- Tuner.SetPll: where the integer part does not fit its byte, or no divider fits and 128 is used, nothing is said of how near the result is; the supported crystals are 16 and 28.8 MHz. The register writes, the VCO fine-tune adjustment of the divider field and the lock retry are hardware I/O.
- Console.AlwaysSafe: log lines printed by other tasks (`shell_async_print`) are not modelled; they may read the line buffer while an SSH session edits it, for display only.
- Antenna.HandedOff: the lowering of the flag and the copying that follows are taken in program order, which the plain store at `main/class_driver.c:1201` does not by itself enforce on the hardware; before the receiver's task runs, setters apply the position themselves and that path is not modelled.
- Spsc.RingIsAQueue: publishing a counter makes the stored elements visible, as the feeds' release and acquire do; the IQ ring's counters are only `volatile`.
- Feed.Feed.Push: the line is formatted in a scratch line and then put in its slot, where the source formats in the slot.
- Scanner.Detect: buffers shorter than 240 samples, on which the loop bound would wrap, are outside its precondition.
- Bursts.PairFoundIsThePair: for two pairs that together span more than 24 bits nothing is said; it would need that no four errors look valid.
- Tracker.Table.OnMessage: callsign, squawk, altitude, velocity and the other per-row fields; one clock reading serves the whole message; positions are kept as reals, not `float`.
- `cpr_nl`'s thresholds are taken as given, not derived from their cosine formula; IEEE rounding of `double` and `float` is not modelled anywhere.
- `main/feed_avr.c`'s hexadecimal line format: its ring is the same protocol, the format adds only easy members.
- `thin` and the integer rounding in `tools/mkmap.py`: they move vertices on purpose, so the map theorems are about the clipped rings. The choice of lakes by rank comes before the outlines modelled, and longitudes are projected without wrapping, as there.
- `inject_fake_aircraft` (`main/class_driver.c:1068-1128`), which writes rows for indoor tests past the plausibility gate.
- The decoding of fields inside accepted frames, the Comm-B scorers, and `decode_movement`: finite tables.
- Sockets, the web server, OTA, NVS, libssh, WiFi and Ethernet, audio, USB transfers and their recovery, the other tuners, the screens' contents and the JSON feed.
