# A verified model of the Linux/IrDA utilities

The Linux/IrDA project (www/, irda-utils/) consists mostly of set-up programs around the kernel's
infrared stack. This project models the parts of `irda-utils` that hold real state: a network card
driver, a buffer, a file transfer protocol, a protocol analyser and an input device driver. What
these parts promise is proved for all inputs, runs and reachable states; where the code does not
keep a promise, a concrete input shows it and the exact condition under which it does is proved.

`dafny verify dfyconfig.toml` checks everything. Each module stands for one component:

| file | module | component |
|---|---|---|
| IrCard.dfy | `IrCard` | transmit side of the IBM 31T1502 PCMCIA driver: queue, shared memory, banked registers |
| DevList.dfy | `DevLists` | that driver's list of device instances, from attaching to unloading |
| NetBuf.dfy | `NetBufs` | the network buffer of irdadump, which grows at both ends |
| PsionHeader.dfy, PsionTransfer.dfy | `PsionHeader`, `PsionTransfer` | file transfer with a Psion 5: the textual request and the two-party protocol |
| Obex.dfy | `Obex` | irdadump's OBEX decoder |
| IrComm.dfy | `IrComm` | irdadump's IrCOMM parameter decoder |
| Irlmp.dfy | `Irlmp` | irdadump's tracker of IAS queries and connections |
| Capture.dfy | `Captures` | irdadump's capture files, written and replayed |
| IrKbd.dfy | `IrKbd` | driver of the Tekram infrared keyboard and mouse |
| Bytes.dfy | `Bytes` | octets and big-endian integers |

## How it is modelled

Code that changes objects step by step is a class whose methods do the same; their contracts tie the
new state to a function of the old one, and the theorems are about that function or about a ghost
history. Decoders are loops over a `NetBuf`, proved against a recursive description of the walk;
the theorems connect that description with an independent encoder, in both directions.

The environment appears as parameters and step guards:

* **The card.** Frames are accepted only while fewer than eight have been queued since the last
  reset, shared memory has room, and the length fits the 13-bit counter (`IrCard.Fits`): the driver
  does not check any of this. Completions are read only while frames are queued, from whichever
  register they are read, and the
  speed is changed only when none are queued. At 115200 baud and below another driver has the card.
  Addresses are offsets from `membase`, so the base itself does not appear.
* **The Psion connection** delivers every octet once and in order, but a read may return any
  non-empty part of what is there.
* **Byte order.** Capture files hold integers as they lie in memory, so the host's order is a
  parameter.
* **Signals.** Timer expiries, responses, data and the steps of `main` interleave freely.

## Where the code does not do what it says

* A device that was marked stale because it was configured is promised to be detached once it is
  released (ircard_cs.c:210-215); `ircard_release` does not do that. A link that is open and
  configured makes unloading loop forever (`DevLists.CleanupEnds`).
* After a reception the interrupt handler asks for the next event with bank 1 selected
  (ircard_cs.c:1048, 1200): instead of the master status register it reads the frame address register,
  which the driver never sets (`IrCard.EventSource`). What follows depends on that register's content:
  if its bits look like a completion, the frame at the front of the queue counts as sent, whether it was
  or not, and `ircard_xmit_complete` writes MISC and RESET into bank 1, so that DMA stays on
  (`IrCard.DmaStaysOn`, `IrCard.LateOnlyAtTheEnd`).
* The resets in `ircard_receive` go to whichever bank was selected when it was entered; after a change of
  speed that is always bank 2.
* `find_connection` looks at its one-entry cache before the table, and neither at `valid`. A
  connection that is opened again while the cache still points at its former slot is looked up in
  the wrong slot until another pair clears the cache (`Irlmp.StaleCache`).
* The learned LSAP is 0 at the start, not "none": a request for LSAP 0 before any query is
  registered as a connection (`Irlmp.UnannouncedConnection`).
* The replay filter compares a protocol number in network order with a constant in host order, so a
  capture is replayed on big-endian hosts only (`Captures.ReplayShows`). The live filter does convert.
* A negative record length makes `read` fail with -1, which is then compared with the length: a
  length of -1 counts as read (`Captures.WildLengthIff`).
* The IrCOMM parser does not look at a parameter's length before it reads the value: a value that is too
  short is completed with octets of the next parameter or the payload (`IrComm.BorrowedRate`).
* Instead of a one-octet OBEX value its identifier is printed
  (`Obex.OneOctetHidden`).
* The Psion request is read once and may be cut short: the receiver then takes the rest of the line
  for file data (`PsionTransfer.NameInFile`). Sizes from 2 GB on are printed negative, which is still
  scanned right up to 4 GB. Leading white space of a name is lost.
* The receiver of the Psion file sets the modification time only when it is not 0.
* When the keyboard's connection ends, the last frame is still in the buffer and is dispatched a
  second time (`IrKbd.LostConnectionRepeats`). `main` overwrites the keyboard's initial state at once, so the keyboard is initialised
  only when the timer expires between two assignments (`IrKbd.SendsWhat`).

## Model

| member | source | states |
|---|---|---|
| `IrCard.CountRegisters` | irda-utils/pcmcia/ircard_cs.c:882-886 | the split 13-bit byte count decodes to the length if and only if the length is below 8192 |
| `IrCard.AddrRegisters` | irda-utils/pcmcia/ircard_cs.c:892-895 | the split address with the paging bit decodes to the offset if and only if it lies in the transmit half of shared memory |
| `IrCard.LaidSum` | irda-utils/pcmcia/ircard_cs.c:806-816 | `tail` is the transmit base plus all lengths since the last reset |
| `IrCard.LaidDisjoint` | irda-utils/pcmcia/ircard_cs.c:806-816 | every slot starts at the base plus the earlier lengths and ends before every later slot starts |
| `IrCard.PendingBelow` | irda-utils/pcmcia/ircard_cs.c:811-813 | a copy at or above `tail` does not change any queued frame |
| `IrCard.PushKeeps` | irda-utils/pcmcia/ircard_cs.c:806-816 | after queueing, the frames in shared memory are the former ones followed by the new one |
| `IrCard.PopKeeps` | irda-utils/pcmcia/ircard_cs.c:960-962 | after a completion the queue is well formed and holds the former frames without the first |
| `IrCard.Current` | irda-utils/pcmcia/ircard_cs.c:892-895 | the slot at `ptr` is the first pending frame and lies in the part of shared memory that the address register can reach |
| `IrCard.DmaRegsHold` | irda-utils/pcmcia/ircard_cs.c:862-907 | after all register writes of a transmission, in three banks, count, address and start bits hold, and no other register has changed |
| `IrCard.DmaRegsInNumbers` | irda-utils/pcmcia/ircard_cs.c:871-906 | the same register by register: which of the eight places holds which octet, and that no other place has changed |
| `IrCard.Chip.SwitchBank` | irda-utils/pcmcia/ircard_cs.h:216-230 | the enable bits survive, the former bank is returned |
| `IrCard.Chip.StartDma` | irda-utils/pcmcia/ircard_cs.c:862-907 | count and address reach the chip if and only if they fit, split over the registers as given in numbers; transmission is enabled, bank 0 is selected |
| `IrCard.Chip.StartReceive` | irda-utils/pcmcia/ircard_cs.c:998-1023 | reception is on; the two resets are commands if and only if bank 0 was selected on entry |
| `IrCard.Chip.StopDma` | irda-utils/pcmcia/ircard_cs.c:926-954 | DMA is switched off and the reset given if and only if bank 0 was selected on entry |
| `IrCard.Chip.SelectSpeed` | irda-utils/pcmcia/ircard_cs.c:734-769 | the modulation register for each speed, and the hardware reset |
| `IrCard.Driver.DmaWrite` | irda-utils/pcmcia/ircard_cs.c:862-907 | what the chip reads from shared memory is, octet by octet, the first accepted frame not yet sent |
| `IrCard.Driver.OnTheWire` | irda-utils/pcmcia/ircard_cs.c:862-907 | in every state with frames queued, what the chip sends is the first of them |
| `IrCard.Driver.Receive` | irda-utils/pcmcia/ircard_cs.c:991-1028 | the queue is empty and starts at the transmit base again |
| `IrCard.Driver.HardXmit` | irda-utils/pcmcia/ircard_cs.c:786-854 | a frame is refused when busy, else queued last; the chip is started if and only if it was idle, and otherwise not disturbed |
| `IrCard.Driver.XmitComplete` | irda-utils/pcmcia/ircard_cs.c:915-982 | one more frame is sent; the next accepted one is on its way, or the driver receives, or waits; conservation holds from any bank |
| `IrCard.Driver.ReceiveComplete` | irda-utils/pcmcia/ircard_cs.c:1036-1052 | a receive interrupt does not disturb a transmission, but leaves another bank selected |
| `IrCard.Driver.constructor` | irda-utils/pcmcia/ircard_cs.c:1003-1005 | a new driver has an empty queue at the transmit base and is not busy |
| `IrCard.Driver.Interrupt` | irda-utils/pcmcia/ircard_cs.c:1146-1209 | at most twelve events are handled, none up to 115200 baud, each read in the bank that those before it leave; above, a first report with bits 7 makes a queued frame count as sent; queue and number of frames sent are exactly those after these events; the selected bank is restored; the last completion switches DMA off if and only if it was read in bank 0 |
| `IrCard.EventsInNumbers` | irda-utils/pcmcia/ircard_cs.h:50-60 | the three identifying bits of the register read are 7 for a completion, 4 or 5 for a reception, 0 for nothing, and for nothing else |
| `IrCard.FirstIsCounted` | irda-utils/pcmcia/ircard_cs.c:1173-1180 | what the master status register says first is dealt with, and a completion is counted |
| `IrCard.TwelveAtMost` | irda-utils/pcmcia/ircard_cs.c:1196-1199 | reports of anything else are all dealt with up to the twelfth |
| `IrCard.EventSource` | irda-utils/pcmcia/ircard_cs.c:1173-1200 | an event is identified by the master status register if and only if the events before it leave bank 0, and else by the frame address register |
| `IrCard.LateOnlyAtTheEnd` | irda-utils/pcmcia/ircard_cs.c:1173-1200 | with a frame address register that does not change, a completion leaves DMA on only as the twelfth event |
| `IrCard.Driver.ChangeSpeed` | irda-utils/pcmcia/ircard_cs.c:701-778 | frames are conserved if and only if the new speed is a serial one or none are waiting, and with none waiting the driver goes on as before |
| `IrCard.Driver.Run` | irda-utils/pcmcia/ircard_cs.c:701-1209 | over every run of requests, interrupts and changes of speed that are possible in turn: exactly the frames of the run are accepted, in order, exactly the completed ones are sent, the rest is in shared memory, queue and speed are those of the pure fold of the run, and the chip was told about at most one frame more |
| `IrCard.AfterEventsLen` | irda-utils/pcmcia/ircard_cs.c:960-976 | after the events of an interrupt the queue is shorter by exactly the completions |
| `IrCard.PossibleInNumbers` | irda-utils/pcmcia/ircard_cs.c:806-816 | the guards of a run: above 115200 baud, fewer than 8 frames, each below 8192 octets, ending at 0x8000 at most; a reset queue starts at 0x4000 |
| `IrCard.WindowPossible` | irda-utils/pcmcia/ircard_cs.c:806-816 | any frames that fit the rest of the window and of shared memory can be sent off one after the other |
| `IrCard.WindowInNumbers` | irda-utils/pcmcia/ircard_cs.c:806-816 | a window has one to eight frames below 8192 octets, together 0x4000 at most |
| `IrCard.WindowsPossible` | irda-utils/pcmcia/ircard_cs.c:806-976 | any number of windows of frames can be sent, each reported by one interrupt, and every frame of them is completed |
| `IrCard.SendWindows` | irda-utils/pcmcia/ircard_cs.c:701-1209 | a new driver at a fast speed sends any number of windows: what it transmits is exactly their frames, in order |
| `IrCard.DmaStaysOn` | irda-utils/pcmcia/ircard_cs.c:926-954 | one frame, and one interrupt with receptions: the frame counts as sent with DMA still on if and only if the frame address register identifies a completion, and otherwise it does not count as sent |
| `DevLists.DevList.Attach` | irda-utils/pcmcia/ircard_cs.c:162-181 | the new link is first; one that cannot be registered leaves the list as it was, and it is this new link that is freed |
| `DevLists.DevList.Find` | irda-utils/pcmcia/ircard_cs.c:204-208 | finds the link and what points at it if and only if it is on the list |
| `DevLists.DevList.Detach` | irda-utils/pcmcia/ircard_cs.c:193-240 | exactly one link goes and the others keep their order; a configured link is marked and never freed; an unknown one changes nothing |
| `DevLists.DevList.Release` | irda-utils/pcmcia/ircard_cs.c:513-538 | gives up the configuration if and only if the link is not open; detaches nothing |
| `DevLists.DevList.CleanupRound` | irda-utils/pcmcia/ircard_cs.c:1362-1366 | one turn of the loop on the real list is one turn of its model |
| `DevLists.DevList.Cleanup` | irda-utils/pcmcia/ircard_cs.c:1357-1367 | with no link both open and configured, ends with an empty list and every link freed in order |
| `DevLists.CleanupEnds` | irda-utils/pcmcia/ircard_cs.c:1357-1367 | unloading ends if and only if no link is both open and configured |
| `DevLists.NeverEmpties` | irda-utils/pcmcia/ircard_cs.c:1362-1366 | with such a link the list is not empty after any number of turns |
| `NetBufs.NetBuf.Realloc` | irda-utils/irdadump/netbuf.c:94-121 | every offset and every octet that fits is kept, even with `tail` beyond `end` |
| `NetBufs.NetBuf.Put` | irda-utils/irdadump/netbuf.c:144-162 | the window grows at its end, in place or by reallocating; nothing below moves |
| `NetBufs.NetBuf.PutData` | irda-utils/irdadump/netbuf.c:164-175 | the message is the former one followed by the data |
| `NetBufs.NetBuf.Push` | irda-utils/irdadump/netbuf.c:183-203 | the window grows at its front, moving the message up when there is too little room |
| `NetBufs.NetBuf.PrependHdr` | irda-utils/irdadump/netbuf.c:211-222 | the message is the header followed by the former one |
| `NetBufs.NetBuf.Pull` | irda-utils/irdadump/netbuf.c:230-237 | drops the front, or fails and changes nothing when there is too little |
| `NetBufs.NetBuf.Trim` | irda-utils/irdadump/netbuf.c:279-285 | cuts the message to a length, or leaves a shorter one alone |
| `NetBufs.NetBuf.Reserve` | irda-utils/irdadump/netbuf.c:245-249 | moves the window up; it is still inside the allocation if and only if the tailroom was enough |
| `NetBufs.NetBuf.Headroom` | irda-utils/irdadump/netbuf.c:257-260 | what lies in the allocation before the message, and by `Push` what can be prepended without reallocating |
| `NetBufs.NetBuf.Tailroom` | irda-utils/irdadump/netbuf.c:268-271 | what can be appended without reallocating; with headroom and message it makes up the allocation |
| `NetBufs.NetBuf.Recycle` | irda-utils/irdadump/netbuf.c:47-55 | the message is empty and the whole allocation free |
| `NetBufs.NetBuf.constructor` | irda-utils/irdadump/netbuf.c:63-86 | a new buffer is an empty message |
| `NetBufs.NetBuf.Run` | irda-utils/irdadump/netbuf.c:47-285 | any sequence of calls, reallocating at either end or not, leaves what the same operations leave on a plain sequence, and fails where they do |
| `NetBufs.IdealOnOctets` | irda-utils/irdadump/netbuf.c:144-285 | what each operation leaves of a message of four octets |
| `NetBufs.UnwrapWrapped` | irda-utils/irdadump/netbuf.c:211-237 | any stack of headers that was prepended is taken off again by pulls of their lengths |
| `PsionHeader.ScanPrinted` | irda-utils/psion/irpsion5.c:264-269 | a printed number, negative ones included, is scanned back modulo 2^32, whatever the width of a long |
| `PsionHeader.PrintedInDecimal` | irda-utils/psion/irpsion5.c:264-269 | numbers are printed in decimal digits without leading zeros |
| `PsionHeader.ScanJoined` | irda-utils/psion/irpsion5.c:441-445 | so is any list of numbers, and what follows them is left over |
| `PsionHeader.ScanPrintedFile` | irda-utils/psion/irpsion5.c:441-452 | the scanned request has the size modulo 2^32, mode and both date halves as sent, and the name without leading white space |
| `PsionHeader.NameSurvives` | irda-utils/psion/irpsion5.c:443-452 | the name is kept if and only if it does not begin with white space |
| `PsionHeader.ScanOrdinaryFile` | irda-utils/psion/irpsion5.c:264-269 | the request scans back to exactly what was printed if and only if the size is below 4 GB and the name does not begin with white space |
| `PsionHeader.SampleRequest` | irda-utils/psion/irpsion5.c:413-419 | "FILE 55175 32 14689800 2691219200 Data", octet by octet, is printed for and scanned as these numbers and this name, and its date is the time 923950076 |
| `PsionHeader.RequestsInOctets` | irda-utils/psion/irpsion5.c:441-488 | only what begins with "FILE " announces a file and only what begins with "DATA " data; "DATA 185" announces 185 octets |
| `PsionHeader.LimitsInNumbers` | irda-utils/psion/irpsion5.c:443-445 | numbers that do not fit a long are cut to its largest value, and then to 32 bits |
| `PsionHeader.SpacesInOctets` | irda-utils/psion/irpsion5.c:443-452 | white space, digits and the minus sign, as the C library knows them |
| `PsionHeader.PlusIsScanned` | irda-utils/psion/irpsion5.c:443-445 | a plus sign is no part of a number |
| `PsionHeader.CutJoined` | irda-utils/psion/irpsion5.c:441-452 | of numbers that are cut anywhere, scanning leaves nothing but white space |
| `PsionHeader.CutFile` | irda-utils/psion/irpsion5.c:426-452 | a request with octets missing at its end never carries the name that was sent |
| `PsionHeader.CutName` | irda-utils/psion/irpsion5.c:443-452 | without its last octets a request announces the same file with a shorter name |
| `PsionHeader.FileLength` | irda-utils/psion/irpsion5.c:264-269 | all of a request but its name takes at most 53 octets |
| `PsionHeader.DateSurvives` | irda-utils/psion/irpsion5.c:260-261 | for every time, scaling and splitting do not overflow 64 bits, and rejoining and dividing give back the time modulo 2^32 |
| `PsionHeader.DateInNumbers` | irda-utils/psion/irpsion5.c:260-261 | the date sent and the time received, in numbers |
| `PsionTransfer.StepKeepsInv` | irda-utils/psion/irpsion5.c:270-322 | every system call of either side keeps: received, in flight and unsent make up what followed the request; no payload is on the way before the request was read and acknowledged |
| `PsionTransfer.RunKeepsInv` | irda-utils/psion/irpsion5.c:426-533 | so every state of every run, with any chunking and interleaving, keeps it |
| `PsionTransfer.ReadsInNumbers` | irda-utils/psion/irpsion5.c:278-308 | reads get up to 2044 octets, of an acknowledgement 2043; a request of 2044 octets is refused; chunks have 2044 octets but for the last |
| `PsionTransfer.AckInOctets` | irda-utils/psion/irpsion5.c:296-299 | "ACK Y" is sent, and nothing else is taken for it |
| `PsionTransfer.HeaderInOctets` | irda-utils/psion/irpsion5.c:264-269 | the request for a file of 55175 octets called Data, octet by octet; the mode is 32, or 33 for a file that cannot be written |
| `PsionTransfer.DeliveredIffWhole` | irda-utils/psion/irpsion5.c:426-436 | a finished receiver has exactly the file, name and date if and only if its first read got the whole request |
| `PsionTransfer.HeaderScans` | irda-utils/psion/irpsion5.c:441-454 | the receiver understands the request and derives the sender's time from it |
| `PsionTransfer.StepDecreases` | irda-utils/psion/irpsion5.c:305-322 | every step uses up a measure, so no run is infinite |
| `PsionTransfer.StopsWhenDone` | irda-utils/psion/irpsion5.c:490-533 | a transfer that can take no further step is complete on both sides: there is no deadlock |
| `PsionTransfer.WholeIsGetsAll` | irda-utils/psion/irpsion5.c:278-298 | in every state of a run, the single reads of both sides have got everything if and only if the state shows no failure of theirs |
| `PsionTransfer.RunDelivers` | irda-utils/psion/irpsion5.c:270-533 | every run is bounded, and one that has ended has delivered the file, its name and its date to the satisfaction of both sides if and only if both unrepeated reads got everything |
| `PsionTransfer.ShortNameFits` | irda-utils/psion/irpsion5.c:264-271 | a request with a name below 1990 octets fits the buffers |
| `PsionTransfer.NameInFile` | irda-utils/psion/irpsion5.c:426-452 | for every file and name: a run in which the first read misses the last octets of the name, goes unnoticed, and puts them into the file |
| `PsionTransfer.NameInFileExample` | irda-utils/psion/irpsion5.c:426-436 | such a run for a file of one octet called "ab" |
| `PsionTransfer.SendFile` | irda-utils/psion/irpsion5.c:305-322 | the writes make up the file, all of them full but the last |
| `PsionTransfer.ReceiveFile` | irda-utils/psion/irpsion5.c:497-533 | what was read is written, in order; it stops at the first read that completes the size and fails only when the connection ends before |
| `Obex.VisitsCover` | irda-utils/irdadump/obex.c:140-187 | on every message the complete headers and what is left over make up the message |
| `Obex.LengthInOctets` | irda-utils/irdadump/obex.c:67-107 | identifiers from 0xc0 take five octets, from 0x80 two, below 0x80 what the next two octets say, which wraps below 3 |
| `Obex.TextsInNumbers` | irda-utils/irdadump/obex.c:143-164 | which headers hold text |
| `Obex.VisitsEncoded` | irda-utils/irdadump/obex.c:140-187 | encoded headers are visited one by one, each with exactly its octets, and nothing is left over |
| `Obex.CompleteIffEncoded` | irda-utils/irdadump/obex.c:140-187 | a message below 64 KB is consumed completely if and only if it is a list of encoded headers |
| `Obex.NarrowWidened` | irda-utils/irdadump/obex.c:45-52 | text that was widened to 16 bits is narrowed to itself |
| `Obex.UnicodeToChar` | irda-utils/irdadump/obex.c:45-52 | the compaction in place leaves the narrowed text, terminated, and the rest of the buffer alone |
| `Obex.NarrowStops` | irda-utils/irdadump/obex.c:45-52 | that text is every second octet, from the second on, up to the first of these that is zero |
| `Obex.WidenedAt` | irda-utils/irdadump/obex.c:45-52 | text is encoded as 16-bit characters, upper octet first, with a zero character at the end |
| `Obex.ShowEncoded` | irda-utils/irdadump/obex.c:60-111 | 16-bit texts, texts in octets, lengths and numbers are shown as they were encoded; of a one-octet value the identifier is shown, which is right if and only if they are the same |
| `Obex.ShownInOctets` | irda-utils/irdadump/obex.c:67-107 | what is shown of a complete header for every range of identifiers, octet by octet |
| `Obex.LengthHeader` | irda-utils/irdadump/obex.c:153-156 | a LENGTH header as it arrives is five octets and shows its number |
| `Obex.OneOctetHidden` | irda-utils/irdadump/obex.c:94-98 | a one-octet value that is not shown |
| `Obex.ParseHeader` | irda-utils/irdadump/obex.c:60-111 | the returned length is at least 2, and is the header's length whenever the header is complete, 16-bit wrap-around included |
| `Obex.ParseHeaders` | irda-utils/irdadump/obex.c:119-188 | ends on every message, shows each complete header once and in order, and reports "unterminated" if and only if something is left over |
| `Obex.Decoder.Parse` | irda-utils/irdadump/obex.c:264-350 | headers are looked for behind the frame header that the operation and the latest non-empty command call for |
| `Obex.HeadersInNumbers` | irda-utils/irdadump/obex.c:278-341 | where headers begin for every operation, command or answer, after every last command |
| `IrComm.WalkEncoded` | irda-utils/irdadump/ircomm.c:62-123 | any encoded parameters are visited one by one, each with what it and the octets behind it look like, and the walk ends at the payload |
| `IrComm.MetInPlace` | irda-utils/irdadump/ircomm.c:68-120 | whatever their values are, parameters are met at their own offsets, under their identifiers without the critical bit |
| `IrComm.SeenInOctets` | irda-utils/irdadump/ircomm.c:69-120 | what is seen of a parameter for every identifier, octet by octet |
| `IrComm.CriticalBit` | irda-utils/irdadump/ircomm.c:69-70 | the critical bit makes no difference |
| `IrComm.CriticalRate` | irda-utils/irdadump/ircomm.c:97-100 | a critical data rate of 9600, as it arrives |
| `Bytes.MostSignificantFirst` | irda-utils/irdadump/ircomm.c:55-60 | what the octets of a number are worth |
| `IrComm.ShownAsOwnIff` | irda-utils/irdadump/ircomm.c:72-119 | a value is shown as its own if and only if it is as long as the parser reads, or too little of the message follows |
| `IrComm.ShownAsExpectedIff` | irda-utils/irdadump/ircomm.c:68-120 | all values are shown as encoded if and only if that is so for each of them |
| `IrComm.BorrowedRate` | irda-utils/irdadump/ircomm.c:97-100 | a data rate of one octet is shown as 0x01000202, made of it and the next parameter |
| `IrComm.EndsIffEncoded` | irda-utils/irdadump/ircomm.c:62-123 | the walk ends where the control length says if and only if those octets are a list of encoded parameters |
| `IrComm.FrameRoundTrip` | irda-utils/irdadump/ircomm.c:140-159 | any frame put together from parameters and payload comes apart into them: offsets, identifiers and payload always, values if and only if none takes octets from what follows |
| `IrComm.ParseParams` | irda-utils/irdadump/ircomm.c:62-123 | the loop ends on every message, advances by two octets at least, shows what the walk visits and removes the parameters |
| `IrComm.ParseTtp` | irda-utils/irdadump/ircomm.c:140-159 | the payload is what is left; an empty frame is left alone |
| `Irlmp.Tracker.FindConnection` | irda-utils/irdadump/irlmp.c:366-371 | the cache answers first, then the first slot with the pair, valid or not; the cache remembers the answer (find_connection is in irlap.c:51-69) |
| `Irlmp.Tracker.FindFreeConnection` | irda-utils/irdadump/irlmp.c:335-340 | the first slot that is not in use (find_free_connection is in irlap.c:77-86) |
| `Irlmp.Tracker.GarbageConnection` | irda-utils/irdadump/irlmp.c:341-342 | exactly the connections of the link go out of use (garbage_connection is in irlap.c:94-102; these lines set what it looks at) |
| `Irlmp.Tracker.constructor` | irda-utils/irdadump/irlmp.c:333-342 | nothing is in use, the learned LSAP is 0, the cache is empty (irlap_init is in irlap.c:791-796; these lines are the first to depend on it) |
| `Irlmp.InitInNumbers` | irda-utils/irdadump/irlmp.c:333-342 | fifteen slots, none in use; learned LSAP 0; no slot cached (irlap.c:41-43 and 791-796) |
| `Irlmp.Tracker.Register` | irda-utils/irdadump/irlmp.c:333-364 | a request for the learned LSAP takes a free slot, if there is one, with the flags of the query; it is decoded as these say, or not at all when the table is full |
| `Irlmp.Tracker.Answered` | irda-utils/irdadump/irlmp.c:366-382 | the answer to a request is decoded as its slot says, in use or not |
| `Irlmp.Tracker.Close` | irda-utils/irdadump/irlmp.c:384-395 | a disconnect takes the slot that lookup finds out of use |
| `Irlmp.Tracker.FileData` | irda-utils/irdadump/irlmp.c:399-430 | an IAS frame teaches its lesson, and the frame is decoded as its slot says |
| `Irlmp.LessonsInNumbers` | irda-utils/irdadump/irlmp.c:79-143 | a query teaches its flags and LSAP 255, an answer its LSAP and nothing else; the end of a link takes exactly its connections out of use (irlap.c:94-102) |
| `Irlmp.Tracker.ParseIrlmp` | irda-utils/irdadump/irlmp.c:306-431 | the octets of a frame, on any buffer contents, have the effect of the event that they encode, and connect and data frames are handed to the protocols that their slot says |
| `Irlmp.DecodeInOctets` | irda-utils/irdadump/irlmp.c:314-411 | the event that any frame of four octets or more is, octet by octet |
| `Irlmp.FlagsOfLatestQuery` | irda-utils/irdadump/irlmp.c:79-101 | over every capture the flags are those of the latest query |
| `Irlmp.LearnedWasNamed` | irda-utils/irdadump/irlmp.c:137-144 | the learned LSAP was named by the latest lesson, or it is 0 and there was none |
| `Irlmp.SlotOrigin` | irda-utils/irdadump/irlmp.c:333-353 | every slot in use is as the request that registered it left it, with the flags of the latest query before that request |
| `Irlmp.ConnectionWasAnnounced` | irda-utils/irdadump/irlmp.c:333-353 | an integer answer named the LSAP of every connection since the latest query, if and only if it is not a request for LSAP 0 before the first lesson |
| `Irlmp.UnannouncedConnection` | irda-utils/irdadump/irlmp.c:333-342 | such a request is registered by the first frame of a capture |
| `Irlmp.UnannouncedFrame` | irda-utils/irdadump/irlmp.c:306-342 | the request is what a frame of four octets decodes to |
| `Irlmp.ResolvesIff` | irda-utils/irdadump/irlmp.c:406-412 | a live connection's frames are filed in its slot if and only if the cache does not hold its pair elsewhere |
| `Irlmp.StepAgreesIff` | irda-utils/irdadump/irlmp.c:333-353 | lookup stays right if and only if the frame does not register a pair whose former slot is cached |
| `Irlmp.AlwaysFoundIff` | irda-utils/irdadump/irlmp.c:366-411 | throughout a capture without duplicate requests every live connection is found, if and only if that never happens |
| `Irlmp.FramesFindTheirSlot` | irda-utils/irdadump/irlmp.c:384-411 | then every frame of a connection is filed in its slot, and its disconnect takes out that slot |
| `Irlmp.OthersUntouched` | irda-utils/irdadump/irlmp.c:332-411 | frames of one pair leave the connections of other pairs alone |
| `Irlmp.BothDirections` | irda-utils/irdadump/irlmp.c:341-411 | a frame and its reply with exchanged LSAPs are filed under the same pair, whichever way each goes |
| `Irlmp.PairsMeetIff` | irda-utils/irdadump/irlmp.c:341-349 | frames of opposite directions have the same pair if and only if their LSAPs are exchanged |
| `Irlmp.LookupCures` | irda-utils/irdadump/irlmp.c:366-372 | looking up a pair that the cache does not hold makes lookup right again |
| `Irlmp.StaleCache` | irda-utils/irdadump/irlmp.c:384-412 | six events after which a live connection is looked up in a slot that is not in use |
| `Irlmp.StaleFromFrames` | irda-utils/irdadump/irlmp.c:306-411 | these events are what six frames of octets decode to, whatever lies behind the frames |
| `Irlmp.DecodeQuery` | irda-utils/irdadump/irlmp.c:50-106 | an encoded query, either way, is taken as a query for its class and attribute |
| `Irlmp.ServiceIff` | irda-utils/irdadump/irlmp.c:79-101 | each flag is set if and only if its word, given in octets, stands in the class or the attribute |
| `Irlmp.ServiceOfStrings` | irda-utils/irdadump/irlmp.c:68-74 | octets from a zero on do not matter |
| `Irlmp.QueriesTeach` | irda-utils/irdadump/irlmp.c:62-101 | queries for OBEX, IrCOMM, IrLPT and IrNet, as they arrive, teach their flags and no others |
| `Irlmp.DecodeAnswer` | irda-utils/irdadump/irlmp.c:126-144 | an encoded integer answer teaches its value modulo 256 |
| `Irlmp.LayersIff` | irda-utils/irdadump/irlmp.c:411-424 | data is decoded by each protocol if and only if its flag is set, from the outside in |
| `Irlmp.ConnectLayersIff` | irda-utils/irdadump/irlmp.c:355-360 | so are requests for connections |
| `Irlmp.PresumedIff` | irda-utils/irdadump/irlmp.c:362-430 | TTP is presumed only for unknown connections, and not for the IAS; no request is decoded when the table is full |
| `Irlmp.DataIsDecodedAsAnnounced` | irda-utils/irdadump/irlmp.c:411-424 | a connection's data is decoded by the protocols that the query before its request asked for |
| `Irlmp.ConnectIsDecodedAsAnnounced` | irda-utils/irdadump/irlmp.c:355-378 | a request for a connection and its answer are decoded by the protocols that the query before the request asked for |
| `Captures.WriteInit` | irda-utils/irdadump/capture.c:154-161 | the file grows by the 24 octets of the header |
| `Captures.HeaderInOctets` | irda-utils/irdadump/capture.c:108-116 | the file header, octet by octet, on hosts of either byte order |
| `Captures.AcceptsIff` | irda-utils/irdadump/capture.c:276-293 | a file is accepted if and only if octets 0-7 and 20-23 are those this host writes |
| `Captures.OnlyItsOwn` | irda-utils/irdadump/capture.c:154-161 | a written header is accepted if and only if reader and writer have the same byte order |
| `Captures.CookedHeader` | irda-utils/irdadump/capture.c:168-205 | the cooked header is the same on every host, in network order, with 0xffff for an unknown packet type |
| `Captures.FillSll` | irda-utils/irdadump/capture.c:168-205 | the fields are as described, with the first octets of the address, at most eight, and what was there before behind them |
| `Captures.Dump` | irda-utils/irdadump/capture.c:213-239 | the file grows by exactly the frame's record |
| `Captures.LengthsInPlaces` | irda-utils/irdadump/capture.c:222-225 | both lengths of a record count the cooked header and the frame |
| `Captures.Check` | irda-utils/irdadump/capture.c:276-293 | the answer is that of the comparison, and the header is consumed |
| `Captures.Get` | irda-utils/irdadump/capture.c:301-329 | the frame is in the buffer and exactly its record consumed, or reading fails, or the frame does not fit: the last if and only if more octets are read than the buffer has |
| `Captures.ReadInPlaces` | irda-utils/irdadump/capture.c:311-323 | from which places of any file time, length, direction, protocol and octets are read |
| `Captures.ReadOneWhole` | irda-utils/irdadump/capture.c:311-328 | a written frame is read with its length, octets, protocol and direction, and its time modulo 2^32 |
| `Captures.ReadOneCut` | irda-utils/irdadump/capture.c:311-326 | a frame that is cut anywhere is not read |
| `Captures.CutFileIsRead` | irda-utils/irdadump/capture.c:301-329 | a file that is cut anywhere behind its header is read as the frames that are whole, and then reading fails |
| `Captures.WholeIsLargest` | irda-utils/irdadump/capture.c:213-239 | these are as many as fit |
| `Captures.FileIsRead` | irda-utils/irdadump/capture.c:213-239 | a file that is not cut is read as all the frames written |
| `Captures.WildLengthIff` | irda-utils/irdadump/capture.c:316-326 | a frame that is read has as many octets as its length says, unless its record says 15: these are exactly the frames read with length -1 |
| `Captures.WildLength` | irda-utils/irdadump/capture.c:316-326 | such a record |
| `Captures.LiveStep` | irda-utils/irdadump/capture.c:213-239 | a packet is written if its protocol field is 0x00, 0x17, it is of the wanted interface and not empty, and not if one of these fails (the loop around it is irdadump.c:260-304) |
| `Captures.WantedIff` | irda-utils/irdadump/capture.c:204 | these three conditions, in octets, are what a live capture asks for (irdadump.c:271-280) |
| `Captures.CapturedInPlace` | irda-utils/irdadump/capture.c:213-239 | any packet among any others is captured, in its place, if and only if it meets them |
| `Captures.CapturedIs` | irda-utils/irdadump/capture.c:213-239 | nothing of another interface or protocol, and nothing empty, is captured |
| `Captures.Live` | irda-utils/irdadump/capture.c:213-239 | the file grows by the records of the wanted packets in order (the loop around it is irdadump.c:260-304) |
| `Captures.ReplayStep` | irda-utils/irdadump/capture.c:301-329 | a frame that fits is shown if and only if it passes the filter, length -1 included, and its octets are then the message in the buffer (the loop around it is irdadump.c:224-258) |
| `Captures.ShownInPlace` | irda-utils/irdadump/capture.c:321-323 | any frame among any others is shown, in its place, if and only if the host reads 0x0017 for its protocol and it is not empty (irdadump.c:243-249) |
| `Captures.Replay` | irda-utils/irdadump/capture.c:301-329 | shows the frames that pass the filter, in order, up to the first failure if and only if all of them fit into the buffer, and else up to the first that does not (the loop around it is irdadump.c:224-258) |
| `Captures.CapturedFits` | irda-utils/irdadump/capture.c:311-326 | a captured file, cut or not, never overfills the buffer when it is replayed (the buffer is allocated in irdadump.c:149) |
| `Captures.ReplayShows` | irda-utils/irdadump/capture.c:204-323 | a capture is replayed completely if and only if the host is big-endian or nothing was captured; otherwise nothing is shown (the filters are irdadump.c:244 and 271) |
| `Captures.CutCaptureShows` | irda-utils/irdadump/capture.c:154-329 | a capture cut anywhere behind its header is accepted if and only if the reader has the writer's byte order; its frames then fit the buffer, and every frame that is whole is shown on a big-endian host and none on another |
| `Captures.RecordAndReplay` | irda-utils/irdadump/capture.c:154-329 | the code does so from writing the header to the last frame shown |
| `IrKbd.WalkEncoded` | irda-utils/tekram/irkbd.c:332-373 | a list of sub-frames is met as it was sent, and the walk ends behind it |
| `IrKbd.WalkEnds` | irda-utils/tekram/irkbd.c:336-372 | with 8-bit wrap-around, a walk that ends does so at the frame's end or a multiple of 256 octets behind it |
| `IrKbd.FirstInOctets` | irda-utils/tekram/irkbd.c:337-372 | how many octets the payload of a sub-frame has, and whom it is for, by its first octet |
| `IrKbd.EndsIffEncoded` | irda-utils/tekram/irkbd.c:332-373 | the remaining length does not wrap and the walk ends at the frame's end if and only if the frame is a list of sub-frames, which are then the ones met |
| `IrKbd.Dispatched` | irda-utils/tekram/irkbd.c:341-372 | every payload octet goes to the handler of its type, once and in order |
| `IrKbd.DealtByOctet` | irda-utils/tekram/irkbd.c:341-372 | whom the payload is passed on to, by the first octet |
| `IrKbd.FrameDispatched` | irda-utils/tekram/irkbd.c:332-373 | so for an encoded frame in the buffer, whatever lies behind it |
| `IrKbd.LostConnectionRepeats` | irda-utils/tekram/irkbd.c:327-333 | the end of the connection dispatches the last frame again |
| `IrKbd.NothingRepeatsIff` | irda-utils/tekram/irkbd.c:327-373 | nothing is dispatched then if and only if the last frame was empty |
| `IrKbd.PhaseIs` | irda-utils/tekram/irkbd.c:254-290 | over every interleaving, the last response or step of `main` that sets the state decides it, but for the step from ready to polling |
| `IrKbd.ResponsesInNumbers` | irda-utils/tekram/irkbd.c:252-291 | what every response does to state, counter and timer, in numbers |
| `IrKbd.ExpiryInNumbers` | irda-utils/tekram/irkbd.c:396-421 | what the expiry of the timer does in every state, in numbers |
| `IrKbd.OthersInNumbers` | irda-utils/tekram/irkbd.c:350-361 | what input and the steps of main do, in numbers |
| `IrKbd.AnswersInNumbers` | irda-utils/tekram/irkbd.c:261-282 | which responses answer the initialisations |
| `IrKbd.SendsWhat` | irda-utils/tekram/irkbd.c:396-421 | a command is sent if and only if the timer expires, and which one follows from the last such event: ENABLE exactly after a mouse response, the keyboard's command exactly between the two assignments of `main` |
| `IrKbd.EnableNeedsAnswer` | irda-utils/tekram/irkbd.c:398-420 | ENABLE is sent only if a mouse response was handled since `main` last set the state |
| `IrKbd.PowerSaveIs` | irda-utils/tekram/irkbd.c:255-260 | the counter is the number of empty answers since the last input |
| `IrKbd.SlowIff` | irda-utils/tekram/irkbd.c:255-260 | the idle rate is chosen if and only if more than 100 empty answers came before, with no input among or after them |
| `IrKbd.RunIsAfter` | irda-utils/tekram/irkbd.c:252-291 | going on with any events leads to the state after the longer history |
| `IrKbd.Keyboard.HandleResponse` | irda-utils/tekram/irkbd.c:252-291 | each response has its effect on state, counter and timer |
| `IrKbd.Keyboard.WatchdogTimerExpired` | irda-utils/tekram/irkbd.c:396-421 | each expiry has its effect on state, timer and commands sent |
| `IrKbd.Keyboard.Connected` | irda-utils/tekram/irkbd.c:439-441 | the three steps of `main` |
| `IrKbd.Keyboard.ParseFrame` | irda-utils/tekram/irkbd.c:332-373 | what is dispatched, and whether the walk stays inside the buffer, is as the walk says |
| `IrKbd.Keyboard.DataIndication` | irda-utils/tekram/irkbd.c:318-374 | a frame is received over what is left of the last one and taken apart, even when nothing was received |
| `IrKbd.Keyboard.RunCalls` | irda-utils/tekram/irkbd.c:318-441 | over every run of frames, ends of the connection, expiries and connections, the driver is in the state of the run's events, and the octets for mouse and keyboard have been passed on in order |
| `IrKbd.Operate` | irda-utils/tekram/irkbd.c:72-117 | so a new driver, after any such run, is in the state that the history of events leads to, of which the results above speak |

## Left out

- Sockets, ioctls, signal delivery, file opening, kernel locks and output formatting: they are parameters, step events or recorded outputs. Writes are taken to be complete.
- IrCard.Driver.ReceiveComplete: the extraction of received frames from shared memory, error statistics and the wait for the end-of-message bit are not modelled; only the banks and resets that matter to transmission are.
- IrCard.Driver.HardXmit: the turnaround delay before a transmission is not modelled.
- IrCard.Driver.ChangeSpeed: the switching of transceivers and the calls to the serial port driver are not modelled.
- IrCard.ShmQueue: the queue is a value in a field of the driver; shared memory is an array that is written in place.
- NetBufs.NetBuf: lengths are unbounded (a sum of 32 bits does not wrap) and allocation always succeeds.
- Obex.ParseHeader: what is shown of a header that runs past the message, or of 16-bit text without an end, is left open, because the parser then shows whatever follows in memory.
- Obex.ShowValue, IrComm.ParseParams, Irlmp.Tracker.ParseIrlmp: scratch copies are as long as they have to be; the source has 255 octets.
- IrComm.ParseTtp: parameters that begin behind the end of the message are read from whatever lies there, and what is shown of them is left open.
- Irlmp.Tracker.ParseIrlmp: frames in UI frames and the LAP layer are not modelled, and what the protocols make of their octets is up to their own modules; the allocation is taken to be long enough for the lookups behind a short frame.
- Captures.Get: it stops at a record that does not fit the buffer; the source writes behind the buffer.
- Captures.ReplayStep: a frame of length -1 leaves the buffer empty; the source extends the message by 2^32 - 1 octets that are not there.
- Captures.LiveStep: packets come as `recvfrom` has cut them to the size of the buffer.
- PsionHeader.ScanRequest: a DATA size is scanned like the numbers of a FILE request; the two differ only for sizes beyond the range of a signed long.
- PsionTransfer.Step: one transfer over a connection that does not break; writes are complete, files can be opened unless they have no name, a running count of octets does not overflow, and the refusal "ACK N" is like any other answer that is not "ACK Y".
- IrKbd.Walk: a walk that would leave the buffer stops there; the source goes on into the memory behind it.
- IrKbd.Keyboard.DataIndication: a timer signal inside the handler is taken to come before or after it. The counter of empty answers does not wrap.
- findchip, smcinit, irattach, irnetd, irsockets, gfindchip and the kernel interface programs: table lookups, register decoding and option parsing without further state.
