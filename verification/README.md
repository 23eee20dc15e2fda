# Driving-recorder firmware: verified model

A Dafny 4.11 model of the logic of an RT-Thread driving recorder: the serial link to the SOC, the EEPROM
store, the power state machine, the calendar conversion and the text page. Code that updates globals in place
is modelled by classes and loops that are proved against specification functions; what the firmware promises
is then proved about those functions for all inputs and all runs.

    dafny verify dfyconfig.toml

## Parts

| file | what it holds |
|---|---|
| `Bytes`, `Checksum`, `CrcRegister`, `CrcTheory` | octets, the 32-bit record checksum, the CRC-16 and what it means |
| `Frames`, `Ring`, `Parser`, `ParserTheory` | frame format, receive ring, resynchronising parser and its runs |
| `Text`, `LinkTheory`, `SerialLink` | text reassembly, end-to-end delivery, the link as one object with its polling loop |
| `Utf8`, `Panel`, `TextPanel` | UTF-8 decoding, 3 x 10 paging, the panel's message buffer |
| `Eeprom`, `Records`, `StoreTheory` | device, bus and page-split writer, record layout, crash and overwrite theory |
| `Formats` | what the field checks accept, as decimal numbers and alphabets |
| `SaveTheory`, `Storage` | what any schedule of refused transfers makes of a save, load/save |
| `StatusCache`, `Odometer` | the cached configuration block of status frames, the odometer against the store |
| `StoreRuns` | whole runs of settings and mileage saves under any refusals |
| `RefusalRuns`, `Recorder` | runs in which one transfer is refused, the whole recorder on one store |
| `Power`, `PowerTheory`, `PowerService` | the power state machine, whole runs of it, the service's globals |
| `Calendar` | days to Gregorian dates |

## Main results

* **CRC.** The half-byte table computes the bit-serial register; the register holds the one remainder of the
  payload times x^16 by x^16 + x^12 + x^5 + 1; a payload burst of up to 16 bits at any alignment is rejected.
* **Parser.** In every run the window is the most recent octets, starts with 0xAA and has at most 254 octets, and
  the accepted frames are disjoint, ordered, well-formed pieces of the stream. 254 octets without 0xAA bring
  any state to rest (253 need not), and from rest a clean stream is delivered exactly. A candidate that fails is
  searched for another head, so a frame that was cut off does not cost the one after it.
* **Link object.** Its invariant ties panel, reassembly and speed reports to the pure run over every octet
  consumed since initialisation; a message cut into frames, mixed with status frames and noise, ends up on the
  panel, after any history that leaves the parser at rest, and down to the code points drawn. Interrupts and polls may come in any order; no octet is lost exactly when the ring is never too full.
* **Store.** The split writer refines a flat write; an interrupted save never mixes fields; single-field saves
  form a last-writer-wins map; one damaged octet is never accepted.
* **Refused transfers.** Which I2C transfers the bus refuses is an input. For every such schedule, memory and
  setting, what a save stores, reports and leaves for a later load is given, and with it the exact conditions
  under which the status cache agrees with the EEPROM and a setting leaves the others alone. Over whole runs the
  cache agrees at the end exactly when what its last refresh saw is what is stored.
* **Recorder.** In any run of octets, polls and settings the odometer shows its start plus the exact sum over the
  speed reports in the octets consumed. Unless the latest save failed a reboot loses less than a kilometre of it,
  and it invents nothing once the first load was carried or a save succeeded.
* **Power.** In both builds, over all runs: supplies are cut only after 3000 ms of closing evaluations, the hold
  goes last, nothing rises again, a latched loss that is not reset is cut within 30 (130) turns exactly when the
  tick recorded for closing is not 0, and so is a parked vehicle with the ignition off.
* **Panel.** Paging through a text draws its visible characters once and in order exactly when no page leaves a
  visible character between what it consumes and where the next page is entered.
* **Calendar.** Every day number gives the date reached by counting days from the Epoch, the only valid date
  with that number; the local date is right exactly when adding eight hours does not overflow 32 bits.

## Where the code and its comments disagree

The model follows the code.

* `applications/app_usart_cmd.h:20` says the CRC covers length to payload; it covers the payload only.
* `applications/svc_storage.c:120-123` gives 41 octets for the configuration record; the C layout has 40.
* `applications/app_usart_cmd.c:629` speaks of a 44-octet cache; the structure has 46.
* `applications/svc_power.c:573-577` describes a delay between the two cuts; both fire in the same turn.
* `applications/app_usart_cmd.c:310-313` restarts on a head octet after a bad length. 0xAA is itself a legal
  length, so the branch is dead and is not in the model.

Six properties are false as one might first state them. Each has its exact condition and a failing input:

* Paging does not always show the whole text. The condition is `Panel.PagesShowAllIff`, the failing family
  `Panel.LeadingBreakLoses`: a line break uses up a line, but the next page is entered 30 characters on all the same.
* The cache does not always agree with the EEPROM after a setting was confirmed. The condition is
  `StatusCaches.StaysCurrent`, proved in `StatusCache.ConfirmSetting`. It fails in three kinds of run: the second page
  is refused (`RefusalRuns.SecondPageRefused`), the read-back is refused (`RefusalRuns.ReadBackRefused`), and a load of
  the refresh is refused although the save reported success (`RefusalRuns.RefreshRefused`).
* A single-field save does not always leave the other configuration fields alone. The condition is
  `SaveTheory.OtherFieldKeptIff`; in `RefusalRuns.FieldReadRefused` a class is saved with success and the phone is lost.
* The odometer does not always go on from the stored mileage. The condition is `Odometers.MileageTakenUpIff`; in
  `RefusalRuns.MileageReadRefused` the read at power-up is refused, the load reports success with 0, and after one
  kilometre a save that succeeds replaces the 5000 km that were stored.
* A message is not always shown as it was sent. The condition is `LinkTheory.OwnMessageIff`, the failing family
  `LinkTheory.CutMessageAbsorbsNext`: a message whose last frame never came swallows the next one.
* A latched loss is not always cut. The condition is `PowerTheory.BoundedShutdown`. `PowerTheory.ZeroTickRun` is a run
  from power-up, in either build, that records a tick of 0; `PowerTheory.ZeroTickNeverCuts` and
  `PowerTheory.ZeroHoldWaits` say what happens then.

## Assumptions

* A transfer refused by the I2C bus stores nothing; a page write that starts completes. Silent write failure is
  not modelled. Which transfers are refused is a function `refuses` of the transfer's number, arbitrary and fixed in
  advance; `Healthy` stands for an attached bus that refuses none.
* One tick per loop turn, nondecreasing, 1000 ticks a second, seen modulo 2^32. Bounded progress assumes turns of
  100 ms or more that together span less than 2^32 ms. Safety assumes neither.
* A CPU reset does not return; what follows is a new run.
* Ring push and pop are atomic. A settings page is confirmed between two polls, not during one, and the report that
  starts the odometer comes before the first poll.
* The firmware version, the packed vehicle inputs and the region code of a status frame are parameters.

## Model

| member | source | states |
|---|---|---|
| CrcRegister.TableEntry | applications/app_usart_cmd.c:224-229 | each of the sixteen table words is its index times x^12 + x^5 + 1 |
| CrcRegister.TableStepIsFourClocks | applications/app_usart_cmd.c:240-246 | one table look-up equals four clocks of the feedback register |
| CrcRegister.Crc16 | applications/app_usart_cmd.c:222-250 | the table loop computes the bit-serial register for every byte sequence |
| CrcRegister.KnownCrc | applications/app_usart_cmd.c:222-250 | the CRC of the single octet 1 is 0x1021 |
| CrcTheory.CrcIsTheRemainder | applications/app_usart_cmd.c:222-250 | the CRC is the unique remainder of the payload bits times x^16 by the generator polynomial |
| CrcTheory.RemainderUnique | applications/app_usart_cmd.c:222-250 | polynomial division by the generator has only one remainder |
| CrcTheory.BurstDetected | applications/app_usart_cmd.c:222-250 | a nonzero difference within sixteen consecutive bits never cancels, whatever follows |
| CrcTheory.BurstChangesCrc | applications/app_usart_cmd.c:222-250 | payloads of equal length that differ by a burst of up to 16 bits have different CRCs |
| CrcTheory.AdjacentOctetsAreABurst | applications/app_usart_cmd.c:222-250 | differences confined to two adjacent octets are such a burst |
| Frames.CheckCrc | applications/app_usart_cmd.c:252-273 | accepts exactly when the CRC of the payload equals the two little-endian octets before the tail |
| Frames.EncodeWellFormed | applications/app_usart_cmd.c:252-273 | an encoded frame has head, length, tail and CRC right, and gives type and payload back |
| Frames.KnownFrame | applications/app_usart_cmd.c:252-273 | one frame octet for octet, with the low octet of the CRC first |
| Frames.BurstRejected | applications/app_usart_cmd.c:252-273 | a frame whose payload is hit by a burst of up to 16 bits fails the CRC check |
| Frames.AdjacentDamageRejected | applications/app_usart_cmd.c:252-273 | damage to any bits of two adjacent payload octets fails the CRC check |
| Frames.BuildAck | applications/app_usart_cmd.c:480-500 | writes the encoded frame of the two payload octets, or nothing when the buffer is too small |
| RxRing.Ring.constructor | applications/app_usart_cmd.c:1309 | the ring starts empty |
| RxRing.Ring.Push | applications/app_usart_cmd.c:175-185 | appends to the FIFO, or refuses and changes nothing when 4096 octets are waiting |
| RxRing.Ring.Pop | applications/app_usart_cmd.c:187-197 | removes the oldest octet, or reports that there is none |
| Parser.NextHead | applications/app_usart_cmd.c:376-382 | finds the first head at or after a position and skips none |
| Parser.StepReachable | applications/app_usart_cmd.c:289-406 | one octet keeps the window headed by 0xAA, at most 254 long and consistent with the expected length |
| Parser.RunReachable | applications/app_usart_cmd.c:275-409 | every reachable state satisfies that invariant, so the 8-bit index never wraps |
| Parser.RunConcat | applications/app_usart_cmd.c:277-279 | how octets are batched into calls makes no difference to state and events |
| Parser.StepAccepts | applications/app_usart_cmd.c:333-341 | what is accepted is the front of the window and is a well-formed frame |
| Parser.StepKeepsBack | applications/app_usart_cmd.c:371-405 | when nothing is accepted the new window is a suffix of the old one and the new octet |
| Parser.FailedCandidate | applications/app_usart_cmd.c:342-405 | a complete candidate that fails is cut to its first later head if a legal length or nothing follows that, and dropped otherwise; the message under way is ended exactly by a last text frame |
| Parser.RunPieces | applications/app_usart_cmd.c:275-409 | accepted frames are disjoint contiguous well-formed pieces of the stream in order, and the window is its end |
| ParserTheory.WindowIsRecent | applications/app_usart_cmd.c:289-405 | the window is exactly the most recent octets |
| ParserTheory.QuietForcesIdle | applications/app_usart_cmd.c:289-405 | from any reachable state 254 octets without a head bring the parser to rest |
| ParserTheory.QuietBoundIsSharp | applications/app_usart_cmd.c:303-331 | 253 such octets can leave a frame pending |
| ParserTheory.FrameDelivered | applications/app_usart_cmd.c:289-341 | from rest a well-formed frame of type 1 or 2 is accepted whole |
| ParserTheory.DamagedEndFinishes | applications/app_usart_cmd.c:342-366 | from rest a last text frame with a damaged tail or CRC ends the message and is not delivered |
| ParserTheory.TruncatedThenFrame | applications/app_usart_cmd.c:371-405 | a frame that was cut off and the good frame after it: exactly the good frame is accepted and the parser is at rest |
| ParserTheory.FrameWaitsForNext | applications/app_usart_cmd.c:371-405 | when both end at the same octet the good frame waits in the window and is accepted with the next octet, which is lost |
| ParserTheory.CleanStreamDelivered | applications/app_usart_cmd.c:289-405 | frames separated by noise without heads are delivered as exactly those frames, in order |
| ParserTheory.RecoversAfterNoise | applications/app_usart_cmd.c:289-405 | after any history and 254 quiet octets a clean stream is delivered exactly |
| TextMessages.Truncate | applications/app_usart_cmd.c:1219-1237 | keeps a text of up to 4096 octets whole and exactly the first 4096 of a longer one |
| TextMessages.IgnoredIff | applications/app_usart_cmd.c:1159-1206 | a frame is ignored exactly when it is too short, is no text frame, or would begin a message without a legal type |
| TextMessages.LateFirstChunk | applications/app_usart_cmd.c:1187-1217 | a first frame that meets a message under way is read as more of it, flag and type as text |
| TextMessages.ChunkEffect | applications/app_usart_cmd.c:1187-1237 | a frame of a split message extends by its chunk what was under way, up to 4096 octets, whatever that was |
| TextMessages.ReportRoundTrip | applications/app_usart_cmd.c:956-1008 | a status frame built around a time and a speed reports exactly these |
| LinkTheory.MessageRoundTrip | applications/app_usart_cmd.c:1159-1280 | from any state the frames of a split message show one message: its first 4096 octets with its flag and type if no text was under way, otherwise the text under way continued |
| LinkTheory.OwnMessageIff | applications/app_usart_cmd.c:1187-1217 | what is shown is the message itself exactly when no text was under way, or in one spelled-out coincidence of 4096 octets |
| LinkTheory.CutMessageAbsorbsNext | applications/app_usart_cmd.c:1187-1217 | after a message whose last frame is missing the next one is appended to it and shown under its flag and type |
| LinkTheory.PartlyReceived | applications/app_usart_cmd.c:1187-1237 | before the last frame the buffer holds what was under way and the chunks so far, up to 4096 octets, and nothing is shown |
| LinkTheory.BurstOnLastFrame | applications/app_usart_cmd.c:342-366 | a burst on the last frame's payload shows what was assembled before it |
| LinkTheory.StatusFramesTransparent | applications/app_usart_cmd.c:1475-1485 | status frames in between neither disturb the message under way nor what is shown |
| LinkTheory.MessageCrossesTheLink | applications/app_usart_cmd.c:1458-1545 | after anything that leaves the parser at rest, a clean stream whose text frames are one split message shows exactly one more message |
| LinkTheory.AtRestAfterQuiet | applications/app_usart_cmd.c:289-405 | any octets followed by 254 without a head leave the parser at rest |
| SerialLinks.SerialLink.constructor | applications/app_usart_cmd.c:1305-1317 | the link starts with an empty ring, at rest, with nothing shown |
| SerialLinks.SerialLink.PushBytes | applications/app_usart_cmd.c:1382-1403 | the ring then holds what of the old content and the new octets fits 4096, in order; the link's invariant stays |
| SerialLinks.SerialLink.FindNextHead | applications/app_usart_cmd.c:376-382 | the first head after position 0 of the window, or 0 |
| SerialLinks.SerialLink.ShiftDown | applications/app_usart_cmd.c:390-393 | moves the rest of the window to the front |
| SerialLinks.SerialLink.Resynchronise | applications/app_usart_cmd.c:371-405 | cuts the window as the specification prescribes and always shortens it |
| SerialLinks.SerialLink.ReadLength | applications/app_usart_cmd.c:303-317 | the second octet sets the expected length or drops the candidate |
| SerialLinks.SerialLink.JudgeCandidate | applications/app_usart_cmd.c:333-405 | accepts, or ends a message and resynchronises, as the step function says |
| SerialLinks.SerialLink.ProcessByte | applications/app_usart_cmd.c:289-406 | one octet takes the static variables through exactly one step of the parser |
| SerialLinks.SerialLink.ParseOne | applications/app_usart_cmd.c:289-406 | one octet moves from the ring to the consumed stream, and is lost or repeated nowhere |
| SerialLinks.SerialLink.TryParseFrame | applications/app_usart_cmd.c:275-409 | stops at the next accepted frame or at an empty ring, with everything before it handled |
| SerialLinks.SerialLink.ForceFinishText | applications/app_usart_cmd.c:1021-1039 | shows what has been assembled, if anything, and empties the assembly |
| SerialLinks.SerialLink.AppendText | applications/app_usart_cmd.c:1219-1237 | appends as much as fits and never runs over the 4097-octet buffer |
| SerialLinks.SerialLink.ParseTextFrame | applications/app_usart_cmd.c:1159-1280 | the buffer, flags and panel change as the reassembly function says, with an 8-bit payload length |
| SerialLinks.SerialLink.ParseStatusFrame | applications/app_usart_cmd.c:956-1008 | a status report of at least 93 octets hands its speed and time to the odometer |
| SerialLinks.SerialLink.DispatchFrame | applications/app_usart_cmd.c:1475-1491 | a frame goes to the text or the status handler by its type |
| SerialLinks.SerialLink.Poll | applications/app_usart_cmd.c:1458-1545 | empties the ring, and keeps panel, assembly and reports equal to the run over all octets consumed |
| SerialLinks.Serve | applications/app_usart_cmd.c:1284-1292 | interrupts and polls in any order: what is consumed or waiting is exactly what got into the ring, in order |
| SerialLinks.NothingLostIff | applications/app_usart_cmd.c:1396-1403 | no octet is lost exactly when at most 4096 arrive between two polls, whatever the order of events |
| SerialLinks.PanelHoldsTheMessage | applications/app_usart_cmd.c:1458-1545 | a link that has consumed a message after any such history holds on its panel what that message made of the text under way |
| SerialLinks.PanelHoldsTheText | applications/svc_lcd.c:2674-2776 | a text of at most 4096 octets in UTF-8 that met no other under way is on the panel as its code points, and without breaks its pages draw all of them |
| SerialLinks.AcceptedIsWellFormed | applications/app_usart_cmd.c:333-341 | every frame handed to dispatch is well formed |
| Utf8.Next | applications/svc_lcd.c:772-818 | consumes 1 to 3 octets, none at a NUL, and never passes the first NUL |
| Utf8.MalformedIsQuestionMark | applications/svc_lcd.c:772-818 | exactly the octets that start no complete form of up to three octets read as a question mark and take one octet |
| Utf8.CodesBounded | applications/svc_lcd.c:2761-2768 | a scan yields fewer codes than there are octets |
| Utf8.ScanGoesOn | applications/svc_lcd.c:2761-2768 | a scan yields no zero code, stops exactly at a NUL or a zero code, and goes on after an octet that starts nothing |
| Utf8.DecodeEncoded | applications/svc_lcd.c:787-811 | decodes every nonzero code point of the basic plane from its RFC 3629 form |
| Utf8.RoundTrip | applications/svc_lcd.c:772-818 | scanning well-formed text recovers exactly its code points |
| Panel.PagesPartitionText | applications/svc_lcd.c:2713-2776 | pages 0 to page_count - 1 draw the code sequence itself exactly when it has no CR or LF |
| Panel.LineConsumes | applications/svc_lcd.c:2737-2754 | a line consumes at most ten codes, leaves the rest and draws the visible ones it consumed |
| Panel.LineEnds | applications/svc_lcd.c:2737-2754 | a line ends right after its first break, or else after ten codes or at the end of the text |
| Panel.PageDraws | applications/svc_lcd.c:2713-2754 | a page consumes at most 30 codes from where it is entered, draws the visible ones and skips its gap |
| Panel.PageCount | applications/svc_lcd.c:2770-2776 | the fewest pages, one at least, that thirty characters each make room for |
| Panel.PagesShowAllIff | applications/svc_lcd.c:2713-2776 | all pages draw every visible character once and in order exactly when no gap holds a visible one; otherwise as many are missing as the gaps hold |
| Panel.LeadingBreakLoses | applications/svc_lcd.c:2744-2748 | a text of any length whose only break comes first loses exactly its characters 21 to 29 |
| Panel.EncodedTextIsShownWhole | applications/svc_lcd.c:2713-2776 | for well-formed UTF-8 without NUL, CR and LF paging shows exactly the code points |
| TextPanels.SkipTo | applications/svc_lcd.c:2719-2730 | stops at the first character of the page or at the end of the text |
| TextPanels.DrawOneLine | applications/svc_lcd.c:2737-2754 | draws up to ten characters, consuming but not drawing a line break |
| TextPanels.CountCodes | applications/svc_lcd.c:2759-2768 | counts the characters of the text |
| TextPanels.TextPanel.Update | applications/svc_lcd.c:2955-2988 | stores flag, type and the first 4096 octets, NUL-terminated, and returns to page 0 |
| TextPanels.TextPanel.Render | applications/svc_lcd.c:2674-2786 | draws the current page and sets the page count, 1 at least |
| TextPanels.TextPanel.NextPage | applications/svc_lcd.c:2807-2813 | advances only within the page count |
| TextPanels.TextPanel.PreviousPage | applications/svc_lcd.c:2799-2804 | goes back only down to page 0 |
| Checksums.ComputeChecksum | applications/svc_storage.c:230-244 | the shift-and-subtract loop computes the polynomial of the octets at 31 modulo 2^32 |
| Checksums.ChecksumIsPolynomial | applications/svc_storage.c:230-244 | the checksum is the sum of octet i times 31 to the number of octets after it, modulo 2^32 |
| Checksums.OneOctetChangesChecksum | applications/svc_storage.c:230-244 | changing exactly one octet changes the checksum, for any length |
| Checksums.DifferenceSurvives | applications/svc_storage.c:239-241 | different sums stay different whatever octets follow |
| Eeproms.PageWriteIsFlat | applications/svc_storage.c:279-314 | a transfer that stays inside its 32-octet page does not wrap |
| Eeproms.CrossingTransferWraps | applications/svc_storage.c:279-281 | a transfer that crosses its page leaves the next page unchanged, so it is a flat write only if nothing was to change there |
| Eeproms.SendIs | applications/svc_storage.c:334-371 | a write takes one transfer a page, is complete exactly when all go through, and otherwise ends before the first refused page |
| Eeproms.Eeprom.Attach | applications/svc_storage.c:788-809 | looks for the bus; the schedule of refusals and the memory stay as they are |
| Eeproms.Eeprom.WritePage | applications/svc_storage.c:283-314 | one transfer: stores the page if the bus carries it, and nothing otherwise or when the length is not 1 to 32 |
| Eeproms.Eeprom.Write | applications/svc_storage.c:334-371 | is a flat write of the pages before the first refused one, of everything on success, touching no other octet |
| Eeproms.Eeprom.Read | applications/svc_storage.c:390-420 | takes two transfers and yields the stored octets exactly when both are carried |
| Records.RecordIsValid | applications/svc_storage.c:1014-1025 | a record built from valid fields passes its check and gives the fields back |
| Records.HeaderIs | applications/svc_storage.c:1014-1018 | magic, version and length of each record octet for octet |
| Records.DamagedRecordRejected | applications/svc_storage.c:444-756 | a valid record with one octet changed, in data or checksum, is never accepted |
| Records.DefaultIsValid | applications/svc_storage.c:199-209 | the defaults satisfy the field checks |
| Records.LoadedIsValid | applications/svc_storage.c:954-1006 | whatever the memory holds, what is loaded is accepted by a save |
| StoreTheory.SavedIsLoaded | applications/svc_storage.c:846-1053 | a complete save is what the next load yields |
| StoreTheory.OnTheChip | applications/svc_storage.c:52-74 | at which address a complete save puts header, fields and padding, and that nothing else changes |
| StoreTheory.OthersUntouched | applications/svc_storage.c:52-74 | a save, however far it gets, changes no other record |
| StoreTheory.CutsOf | applications/svc_storage.c:334-371 | only the configuration record can be cut, and only after 32 octets |
| StoreTheory.FirstPageHasTheFields | applications/svc_storage.c:129-140 | the first page of a configuration record holds all its fields |
| StoreTheory.InterruptedSave | applications/svc_storage.c:334-371 | after a save that stopped between pages a load yields the old value, the new one or, for the configuration, the defaults |
| StoreTheory.DefaultsAfterInterruption | applications/svc_storage.c:752-755 | an interrupted configuration is valid exactly when the old tail carries the checksum of the new fields |
| StoreTheory.SetIsValid | applications/svc_storage.c:1090-1198 | a valid part put into valid fields leaves them valid |
| StoreTheory.SetThenGet | applications/svc_storage.c:1090-1198 | putting a part in changes that part and no other |
| Formats.PhoneIff | applications/svc_storage.c:471-491 | a phone number is accepted exactly when it is eleven decimal digits and a NUL |
| Formats.PlateIff | applications/svc_storage.c:507-541 | a plate is accepted exactly with a flag of 0 or 1, province 0 to 30, a capital letter, five characters of the alphabet and a NUL |
| Formats.ClassIff | applications/svc_storage.c:493-499 | the class is accepted exactly from 1 to 5 |
| Formats.ColorIff | applications/svc_storage.c:501-505 | the colour is accepted exactly from 1 to 5 |
| Formats.VinIff | applications/svc_storage.c:543-572 | a VIN is accepted exactly when unset, or set to seventeen characters of the alphabet, with its NUL |
| Formats.ProvinceIff | applications/svc_storage.c:599-626 | a province code is accepted exactly when unset, or set to two decimal digits, with its NUL |
| Formats.CityIff | applications/svc_storage.c:655-682 | a city code is accepted exactly when unset, or set to four decimal digits, with its NUL |
| Formats.ConfigIff | applications/svc_storage.c:722-756 | a stored configuration passes exactly when each of its four settings would be accepted |
| Formats.RecordIff | applications/svc_storage.c:722-756 | a record is accepted exactly with its header octets, acceptable fields and the polynomial of all before as its last four octets |
| Formats.MileageIff | applications/svc_storage.c:444-468 | any eight octets are an acceptable mileage |
| Formats.PhoneRoundTrip | applications/svc_storage.c:1090-1104 | every eleven-digit number can be saved as the phone number and reads back |
| Formats.VinRoundTrip | applications/svc_storage.c:1221-1258 | every text of seventeen characters of the alphabet can be saved as the VIN and reads back |
| StoreTheory.PutThenRead | applications/svc_storage.c:1076-1198 | a save changes what loading yields for its key only, and an invalid part changes nothing |
| StoreTheory.LastWriterWins | applications/svc_storage.c:846-1378 | any sequence of saves behaves as a last-writer-wins map over eight keys |
| SaveTheory.SaveTakes | applications/svc_storage.c:1027-1046 | how many octets of a record are stored and what is reported, from the transfers of its pages and its read-back |
| SaveTheory.LoadAfter | applications/svc_storage.c:954-988 | what a load of any record yields after a save that stored n octets: the old value, the new one or the defaults, by an exact condition |
| SaveTheory.LoadAfterField | applications/svc_storage.c:1090-1198 | what a load of any record yields after a single-field save, for every schedule of refusals |
| SaveTheory.HealthyIsPut | applications/svc_storage.c:1090-1198 | without refusals a single-field save succeeds and is the map update |
| SaveTheory.OtherFieldKeptIff | applications/svc_storage.c:1099-1102 | a completed configuration save keeps another field exactly when its read was carried or the field was at its default |
| Storage.CheckRecord | applications/svc_storage.c:722-756 | accepts exactly the valid records, which `Formats.RecordIff` describes octet for octet |
| Storage.BuildRecord | applications/svc_storage.c:1014-1025 | lays the record out with zero padding and its checksum |
| Storage.Store.LoadRecord | applications/svc_storage.c:954-988 | yields the record when the read is carried and the defaults otherwise, always acceptable fields, and reports which; mileage always reports success |
| Storage.Store.SaveRecord | applications/svc_storage.c:990-1053 | refuses invalid fields; otherwise stores and reports what the bus allows, and after a success a load yields the value |
| Storage.Store.VerifyRecord | applications/svc_storage.c:1035-1046 | success means exactly that the read was carried and a valid record is stored |
| Storage.Store.SaveField | applications/svc_storage.c:1090-1198 | rejects an invalid part; otherwise memory, bus and report are those of the attempt, and after a success the part is what a load yields |
| StatusCaches.BlockLayout | applications/app_usart_cmd.c:77-92 | where each setting is found in the 46-octet block |
| StatusCaches.FlagsTell | applications/app_usart_cmd.c:607-625 | each flag bit is set exactly when its setting has been made |
| StatusCaches.BlockTellsAll | applications/app_usart_cmd.c:555-626 | records that pass their checks are equal exactly when their blocks are: the block leaves nothing open |
| StatusCaches.RefreshAgreesIff | applications/app_usart_cmd.c:571-574 | a refresh gives the block of the stored records exactly when every refused load concerns a record at its defaults |
| StatusCaches.SettledAgreesIff | applications/svc_lcd.c:2591-2594 | the condition on schedule, old memory and part holds exactly when the cache as left or refreshed agrees with the new memory |
| StatusCaches.HealthyStaysCurrent | applications/svc_lcd.c:2591-2594 | without refusals every confirmation keeps the agreement |
| StatusCaches.StatusCache.constructor | applications/app_usart_cmd.c:1316-1317 | the block after initialisation, and exactly when it agrees with the EEPROM |
| StatusCaches.StatusCache.Refresh | applications/app_usart_cmd.c:555-633 | rebuilds the block from what the four loads yield, and says exactly when it agrees with the EEPROM |
| StatusCaches.StatusCache.ConfirmSetting | applications/svc_lcd.c:2584-2610 | saves a setting; a cache that agreed still agrees exactly under the stated condition; the mileage stays as it was |
| StatusCaches.StatusCache.SaveMileage | applications/svc_storage.c:891-946 | saving the mileage neither makes nor breaks the agreement |
| StatusCaches.StatusCache.BuildStatusFrame | applications/app_usart_cmd.c:659-720 | writes the encoded status frame that carries the cached block, or nothing when the buffer is too small |
| RefusalRuns.SecondPageRefused | applications/svc_storage.c:1027-1032 | a run from power-up in which the second page of a phone number is refused and the cache goes stale |
| RefusalRuns.ReadBackRefused | applications/svc_storage.c:1250-1254 | a run in which a VIN is stored, its read-back is refused, failure is reported and the cache goes stale |
| RefusalRuns.RefreshRefused | applications/app_usart_cmd.c:571-574 | a run in which a VIN is saved with success and the refresh cannot read it |
| RefusalRuns.FieldReadRefused | applications/svc_storage.c:1099-1102 | a run in which a class is saved with success and the phone number is lost |
| RefusalRuns.MileageReadRefused | applications/svc_storage.c:862-873 | a run in which the mileage read at power-up is refused and 5000 km are overwritten by 1 km with success |
| Odometers.AdvanceConserves | applications/app_usart_cmd.c:906-937 | one report adds exactly speed times seconds in 1/36 m, modulo 2^32 km, and keeps metres and remainder in range |
| Odometers.AdvanceMeans | applications/app_usart_cmd.c:906-937 | a report one to five seconds after another adds exactly speed times seconds; any other changes no counter; each becomes the one to measure from |
| Odometers.TravelledIsLegs | applications/app_usart_cmd.c:906-937 | the distance of a sequence of reports is the sum over consecutive ones of speed times one to five seconds |
| Odometers.Conservation | applications/app_usart_cmd.c:876-950 | over any reports and from any counters the distance shown is the initial one plus that sum, modulo 2^32 km |
| Odometers.MileageTakenUpIff | applications/svc_storage.c:862-873 | the odometer starts from the stored distance exactly when the read is carried or that distance is 0 |
| Odometers.ImageOctets | applications/svc_storage.c:891-920 | kilometres in four octets and metres in two, low octet first |
| Odometers.CounterArithmetic | applications/app_usart_cmd.c:930-937 | the 32-bit accumulator never overflows |
| Odometers.ReloadIsClose | applications/app_usart_cmd.c:941-949 | a stored value that has reached the kilometre being driven is less than a kilometre behind; if not ahead it invents nothing |
| Odometers.Odometer.EnsureLoaded | applications/app_usart_cmd.c:891-904 | the first report starts from what loading the mileage yields, which is the stored one exactly when the read is carried or it is zero |
| Odometers.Odometer.Move | applications/app_usart_cmd.c:925-937 | the counters change as the specification says and the exact total follows |
| Odometers.Odometer.SaveIfMoved | applications/app_usart_cmd.c:941-949 | saves exactly when the kilometre count differs from the last one saved, so a failed save is tried again; a success brings the store up to date, whatever the first load yielded |
| Odometers.Odometer.Update | applications/app_usart_cmd.c:876-950 | one report advances the odometer; unless the latest save failed the store is less than a kilometre behind, and not ahead once the first load was carried or a save succeeded; after a failure the next report that counts tries again |
| StoreRuns.AlwaysCurrentIff | applications/svc_lcd.c:2584-2610 | over any run the cache agrees at every moment exactly when each operation meets its condition where it stands |
| StoreRuns.CurrentAtEndIff | applications/app_usart_cmd.c:555-633 | for every schedule and run the cache agrees at the end exactly when what the last refresh saw is what a load yields |
| StoreRuns.HealthyRunIsMap | applications/svc_storage.c:846-1378 | without refusals a run of settings and mileage saves is a last-writer-wins map over all eight keys |
| StoreRuns.DrivingSparesCache | applications/app_usart_cmd.c:941-949 | mileage saves alone neither make nor break the agreement, whatever is refused |
| Recorders.ReportsGrow | applications/app_usart_cmd.c:1482-1491 | more octets only add speed reports, each within the range of its fields |
| Recorders.CleanStreamReports | applications/app_usart_cmd.c:1482-1491 | a clean stream reports exactly what its status frames say, once and in order |
| Recorders.Recorder.constructor | applications/app_init.c:52-59 | power-up looks for the bus, fills the cache, loads the mileage and establishes the invariant of the whole recorder |
| Recorders.Recorder.Poll | applications/app_usart_cmd.c:1458-1545 | consumes the ring, hands every report to the odometer in order, reaches the store by mileage saves only and leaves the agreement of the cache as it was |
| Recorders.Recorder.Confirm | applications/svc_lcd.c:2584-2610 | a setting takes bus, memory and block one step, leaves odometer and link alone and keeps the agreement exactly under the stated condition |
| Recorders.Operate | applications/app_usart_cmd.c:1284-1292 | any run of octets, polls and settings keeps the invariant and says exactly when the cache agrees at its end; without refusals it does, and every setting reads as last written |
| Recorders.DistanceOnTheWire | applications/app_usart_cmd.c:876-950 | in every reachable state the distance shown is the start plus the sum over consecutive reports in the octets consumed; the stored one is less than a kilometre behind unless the latest save failed, and not ahead once in step |
| Power.ConfirmCount | applications/svc_power.c:170-190 | the smallest number of turns that covers the time, within 1 to 255 |
| Power.EvaluateKeeps | applications/svc_power.c:403-568 | evaluation keeps the stage invariant, resets only while latched and enters the final stage only after 3000 ms |
| Power.EnterKeeps | applications/svc_power.c:626-685 | the pending tick is recorded exactly on entering the closing stages and kept inside them |
| Power.FinalCutKeeps | applications/svc_power.c:583-614 | pins fall only in the final stage, the hold last, and all of them once 1500 ms have passed |
| Power.StepKeepsInv | applications/svc_power.c:726-752 | every turn keeps the invariant in both builds; no pin rises and a latched loss stays latched |
| PowerTheory.ElapsedBounds | applications/svc_power.c:327-341 | the 32-bit difference never overstates the time passed and is exact below 2^32 ms |
| PowerTheory.ClosingSince | applications/svc_power.c:626-685 | the recorded tick is that of the turn since which every evaluation was closing |
| PowerTheory.CutOnlyAfterThreeSeconds | applications/svc_power.c:535-614 | a pin falls only if all evaluations over at least 3000 ms were closing, each with a latched loss or the ignition off |
| PowerTheory.PinsOnlyFall | applications/svc_power.c:269-290 | over any stretch of a run no pin rises, and the hold is low only when both enables are |
| PowerTheory.LatchedStep | applications/svc_power.c:529-561 | while latched the timers alone decide the stage and the latch stays |
| PowerTheory.MainStep | applications/svc_power.c:451-488 | with the main supply confirmed the ignition decides the stage, and a pending shutdown goes on exactly after 3000 ms |
| PowerTheory.BoundedShutdown | applications/svc_power.c:503-561 | a latched loss that is not reset enters closing at once, or within 100 turns on the capacitor, and is cut 30 turns later exactly when that tick is not 0 |
| PowerTheory.ClosingCutsIff | applications/svc_power.c:529-614 | thirty turns after closing began the supplies are cut exactly when the recorded tick is not 0, or they were before |
| PowerTheory.IgnitionOffCutsIff | applications/svc_power.c:480-484 | with the main supply confirmed and the ignition off the supplies are cut within thirty turns exactly when the recorded tick is not 0 |
| PowerTheory.ZeroTickNeverCuts | applications/svc_power.c:332-335 | with a recorded tick of 0 the countdown never ends and no pin moves, however long the run |
| PowerTheory.ZeroHoldWaits | applications/svc_power.c:332-335 | with 0 recorded for the capacitor stage only a low capacitor ends it |
| PowerTheory.ZeroTickRun | applications/svc_power.c:332-335 | a run from power-up in either build that latches a loss with a tick of 0 recorded |
| PowerTheory.ResetIff | applications/svc_power.c:451-458 | a reset happens exactly when a latched loss meets ten consecutive good samples |
| PowerTheory.Streaks | applications/svc_power.c:205-218 | a counter stands at n or more exactly when the last n samples were of its kind |
| PowerTheory.LatchNeedsConfirmedLoss | applications/svc_power.c:437-438 | a loss is latched only after ten low samples that follow ten high ones |
| PowerTheory.LatchIff | applications/svc_power.c:437-438 | a loss is latched exactly when ten low samples in a row follow a confirmed main supply |
| PowerTheory.ShortRecoveryIgnored | applications/svc_power.c:451-460 | fewer than ten good samples never abort a latched shutdown |
| PowerTheory.HoldNeedsChargedCapacitor | applications/svc_power.c:511-516 | the capacitor stage is entered only in the managed build after 30 good capacitor samples |
| PowerTheory.HoldIff | applications/svc_power.c:511-516 | a latched loss goes to the capacitor exactly when both supplies were confirmed at one time and it is still charged |
| PowerTheory.HoldEndsIff | applications/svc_power.c:529-561 | the capacitor stage ends exactly after twenty low samples in a row or ten seconds |
| PowerServices.PowerService.constructor | applications/svc_power.c:761-786 | initialisation raises the three supply pins and clears everything else |
| PowerServices.PowerService.SampleCounters | applications/svc_power.c:422-434 | the four counters follow this turn's samples |
| PowerServices.PowerService.EvalStage | applications/svc_power.c:403-568 | the globals and the stage follow the evaluation of the state machine |
| PowerServices.PowerService.HandleStageTransition | applications/svc_power.c:626-685 | ticks and one-shot flags follow the entry actions |
| PowerServices.PowerService.HandleFinalPowerCut | applications/svc_power.c:583-614 | flags and pins follow the final cut |
| PowerServices.PowerService.Turn | applications/svc_power.c:726-752 | one turn of the loop is one step of the state machine and keeps its invariant |
| PowerServices.Loop | applications/svc_power.c:722-752 | the thread from power-up to a reset or the end of its inputs goes through a run of the state machine |
| Calendar.YearOfEraCorrect | applications/LCD/lcd_ui.c:739 | the division finds the year of the era that contains the day |
| Calendar.CivilNext | applications/LCD/lcd_ui.c:735-749 | consecutive day numbers give consecutive calendar dates |
| Calendar.CivilIsTheCalendar | applications/LCD/lcd_ui.c:735-749 | the conversion yields the date reached by counting days from 1970-01-01 |
| Calendar.CivilIsUnique | applications/LCD/lcd_ui.c:735-749 | the result is the only valid date with that day number |
| Calendar.TimestampToLocal | applications/LCD/lcd_ui.c:710-767 | date, hour and minute recompose with the leftover seconds to the 32-bit local time |
| Calendar.DateWrongOnlyOnOverflow | applications/LCD/lcd_ui.c:731 | the local date is right exactly when adding eight hours does not overflow |

## Left out

- Silent write failure: read-back only checks that a valid record is stored, so success would not prove equality.
- PowerTheory.BoundedShutdown: assumes a span below 2^32 ms, because elapsed time is a 32-bit difference.
- SerialLinks.SerialLink.ParseStatusFrame: only speed and timestamp of a status report; the other fields are copied to the display.
- The copy of the latest frame and text message kept for callers that poll, and the valid flag of that copy.
- The camera supply pin, which rises once five seconds after start-up.
- The mileage shadow copy in svc_storage.c, which nothing reads.
- Building a plate, VIN or code from menu indices before it is saved; the model starts from the structure.
- Parsing the version string and packing the vehicle inputs into status bits.
- Null-pointer checks of C parameters.
- LCD drawing, page navigation, key editors and ADC key decoding: user interface without a deep invariant.
- CAN life monitoring, GPIO, clock, DMA and device-framework code: thin calls into an SDK, or unsynchronised threads.
- Thread interleaving inside ring push and pop, which the source does not protect.
