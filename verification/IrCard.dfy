/**
 The transmit side of the IBM 31T1502 driver (ircard_cs.c, ircard_cs.h): a queue of frames laid out
 in the card's shared memory, filled by the network layer and drained by transmit interrupts
 through a banked register file.
 */
module IrCard {
  import opened Bytes

  /** The master control register: three enable bits (0x80, 0x40, 0x20) above a bank number of five bits. */
  datatype Mcr = Mcr(intrEn: bool, txEn: bool, rxEn: bool, bank: nat)

  const TX_ON := Mcr(true, true, false, 0)
  const RX_ON := Mcr(true, false, true, 0)

  // Bank 0
  const MSR_RX_COND_ID: byte := 0x08
  const MSR_RX_DATA_ID: byte := 0x0a
  const MSR_TX_COND_ID: byte := 0x0e
  const MISC: nat := 1
  const TX_CTRL1: nat := 3
  const TX_CTRL2: nat := 4
  const RX_CTRL: nat := 6
  const RESET: nat := 7
  const DMA_ON: byte := 0xc0
  const TX_CTRL1_RTS_UNDR_EOM_I: byte := 0xa0
  const TX_CTRL2_EN_TX_CRC_EARLY_EOM_16: byte := 0x41
  const RX_CTRL_EN_CRC_COND_I: byte := 0x41
  const RESET_ALL: byte := 0x07
  const RESET_RX_SPEC_BITS: byte := 0x30
  const RESET_RX_RFP: byte := 0x40
  const RESET_TX_SPEC_BITS: byte := 0x50

  // Bank 1
  const TX_BYTE_COUNT_LOW: nat := 6
  const TX_BYTE_COUNT_HIGH: nat := 7

  // Bank 2
  const IR_CONF: nat := 1
  const IR_CONF_SIR: byte := 0x00
  const IR_CONF_MIR_576: byte := 0x12
  const IR_CONF_MIR_1152: byte := 0x02
  const IR_CONF_FIR: byte := 0x04

  // Bank 3
  const SH_MEM_PAGE: nat := 1
  const TX_DMA_ADDR_LOW: nat := 2
  const TX_DMA_ADDR_HIGH: nat := 3
  const PAGE_DISABLE: byte := 0x40

  const SHMEM_TX_START := 0x4000
  const SHMEM_SIZE := 0x8000
  const MAX_WINDOW := 8

  /** The largest number of frames one interrupt deals with. */
  const MAX_EVENTS := 12

  // ---- How a frame's place is split over 8-bit registers ----

  function Decode(low: byte, high: byte): nat { low as int + 256 * (high as int) }

  /** The byte count register holds 13 bits: a length comes back exactly when it fits them. */
  method CountRegisters(len: nat) returns (low: byte, high: byte)
    ensures low == len % 256 && high == len / 256 % 32
    ensures Decode(low, high) == len <==> len < 0x2000
  {
    low := len % 256;
    high := len / 256 % 32;
    assert high == len / 256 <==> len < 0x2000;
  }

  /**
   The DMA address keeps 14 bits, and the paging bit above them is always set: an offset comes back
   exactly when it lies in the transmit half of shared memory.
   */
  method AddrRegisters(offset: nat) returns (low: byte, high: byte)
    ensures low == offset % 256 && high == 0x40 + offset / 256 % 64
    ensures Decode(low, high) == offset <==> 0x4000 <= offset < 0x8000
  {
    low := offset % 256;
    high := PAGE_DISABLE + offset / 256 % 64;
    assert high == offset / 256 <==> SHMEM_TX_START <= offset < SHMEM_SIZE;
  }

  // ---- The transmit queue ----

  /** Where a frame is. Addresses are offsets from `membase`, where shared memory is mapped. */
  datatype FrameCb = FrameCb(start: nat, len: nat)

  datatype ShmQueue = ShmQueue(queue: seq<FrameCb>, ptr: nat, len: nat, free: nat, tail: nat)

  /** The frame goes into the next free slot and behind the frames that are there. */
  function Push(q: ShmQueue, n: nat): ShmQueue
    requires q.free < |q.queue|
  {
    ShmQueue(q.queue[q.free := FrameCb(q.tail, n)], q.ptr, q.len + 1, q.free + 1, q.tail + n)
  }

  function Pop(q: ShmQueue): ShmQueue
    requires q.len > 0
  {
    q.(ptr := q.ptr + 1, len := q.len - 1)
  }

  function Reset(q: ShmQueue): ShmQueue {
    q.(ptr := 0, len := 0, free := 0, tail := SHMEM_TX_START)
  }

  /** The slots tile shared memory from the start of its transmit part to `tail`. */
  ghost predicate Laid(slots: seq<FrameCb>, tail: nat) {
    if slots == [] then tail == SHMEM_TX_START
    else
      var last := slots[|slots| - 1];
      last.start + last.len == tail && Laid(slots[..|slots| - 1], last.start)
  }

  function SumLen(slots: seq<FrameCb>): nat {
    if slots == [] then 0 else SumLen(slots[..|slots| - 1]) + slots[|slots| - 1].len
  }

  /** Every length fits the byte count register. */
  ghost predicate Short(slots: seq<FrameCb>) {
    forall k :: 0 <= k < |slots| ==> slots[k].len < 0x2000
  }

  ghost predicate QueueOk(q: ShmQueue) {
    && |q.queue| == MAX_WINDOW
    && q.free == q.ptr + q.len <= MAX_WINDOW
    && q.tail <= SHMEM_SIZE
    && Laid(q.queue[..q.free], q.tail)
    && Short(q.queue[..q.free])
  }

  lemma {:induction false} LaidSum(slots: seq<FrameCb>, tail: nat)
    requires Laid(slots, tail)
    ensures tail == SHMEM_TX_START + SumLen(slots)
  {
    if slots != [] {
      LaidSum(slots[..|slots| - 1], slots[|slots| - 1].start);
    }
  }

  /** Each slot starts behind all earlier ones together, and ends before the next one starts. */
  lemma {:induction false} LaidDisjoint(slots: seq<FrameCb>, tail: nat, i: nat, j: nat)
    requires Laid(slots, tail) && i < j <= |slots|
    ensures slots[i].start == SHMEM_TX_START + SumLen(slots[..i])
    ensures slots[i].start + slots[i].len <= if j < |slots| then slots[j].start else tail
    decreases |slots|
  {
    var init := slots[..|slots| - 1];
    LaidSum(init, slots[|slots| - 1].start);
    if i < |slots| - 1 {
      LaidDisjoint(init, slots[|slots| - 1].start, i, if j < |init| then j else |init|);
      assert init[..i] == slots[..i];
    }
  }

  /** The octets that a slot refers to. */
  function Slot(shm: seq<byte>, cb: FrameCb): seq<byte> {
    if cb.start + cb.len <= |shm| then shm[cb.start..cb.start + cb.len] else []
  }

  function Frames(shm: seq<byte>, slots: seq<FrameCb>): (f: seq<seq<byte>>)
    ensures |f| == |slots|
  {
    if slots == [] then [] else [Slot(shm, slots[0])] + Frames(shm, slots[1..])
  }

  /** The frames from `ptr` to `free`, as they stand in shared memory. */
  ghost function Pending(q: ShmQueue, shm: seq<byte>): seq<seq<byte>> {
    if q.ptr <= q.free <= |q.queue| then Frames(shm, q.queue[q.ptr..q.free]) else []
  }

  lemma {:induction false} FramesAppend(shm: seq<byte>, slots: seq<FrameCb>, cb: FrameCb)
    ensures Frames(shm, slots + [cb]) == Frames(shm, slots) + [Slot(shm, cb)]
  {
    if slots == [] {
      assert slots + [cb] == [cb];
    } else {
      FramesAppend(shm, slots[1..], cb);
      assert (slots + [cb])[1..] == slots[1..] + [cb];
    }
  }

  lemma SlotBelow(shm: seq<byte>, shm': seq<byte>, cb: FrameCb, bound: nat)
    requires cb.start + cb.len <= bound <= |shm| == |shm'| && shm'[..bound] == shm[..bound]
    ensures Slot(shm', cb) == Slot(shm, cb)
  {
    assert shm'[..bound][cb.start..cb.start + cb.len] == shm'[cb.start..cb.start + cb.len];
    assert shm[..bound][cb.start..cb.start + cb.len] == shm[cb.start..cb.start + cb.len];
  }

  /** Slots that end at or below `bound` do not notice a copy to places from `bound` on. */
  lemma {:induction false} FramesBelow(shm: seq<byte>, shm': seq<byte>, slots: seq<FrameCb>, bound: nat)
    requires bound <= |shm| == |shm'| && shm'[..bound] == shm[..bound]
    requires forall k :: 0 <= k < |slots| ==> slots[k].start + slots[k].len <= bound
    ensures Frames(shm', slots) == Frames(shm, slots)
  {
    if slots != [] {
      SlotBelow(shm, shm', slots[0], bound);
      FramesBelow(shm, shm', slots[1..], bound);
    }
  }

  lemma PendingBelow(q: ShmQueue, shm: seq<byte>, shm': seq<byte>)
    requires QueueOk(q) && |shm| == |shm'| == SHMEM_SIZE && shm'[..q.tail] == shm[..q.tail]
    ensures Pending(q, shm') == Pending(q, shm)
  {
    var slots := q.queue[q.ptr..q.free];
    forall k | 0 <= k < |slots|
      ensures slots[k].start + slots[k].len <= q.tail
    {
      LaidDisjoint(q.queue[..q.free], q.tail, q.ptr + k, q.free);
    }
    FramesBelow(shm, shm', slots, q.tail);
  }

  /** What the driver demands of a frame and does not check. */
  predicate Fits(q: ShmQueue, frame: seq<byte>) {
    q.free < MAX_WINDOW && |frame| < 0x2000 && q.tail + |frame| <= SHMEM_SIZE
  }

  lemma PushOk(q: ShmQueue, frame: seq<byte>)
    requires QueueOk(q) && Fits(q, frame)
    ensures q.free < |q.queue| && QueueOk(Push(q, |frame|))
  {
    var slots, cb, r := q.queue[..q.free], FrameCb(q.tail, |frame|), Push(q, |frame|);
    assert r.queue[..r.free] == slots + [cb];
    assert (slots + [cb])[..|slots|] == slots;
  }

  /** Queueing a frame leaves the frames that are queued as they were and puts this one behind them. */
  lemma PushKeeps(q: ShmQueue, shm: seq<byte>, shm': seq<byte>, frame: seq<byte>)
    requires QueueOk(q) && Fits(q, frame) && |shm| == |shm'| == SHMEM_SIZE
    requires shm'[..q.tail] == shm[..q.tail] && shm'[q.tail..q.tail + |frame|] == frame
    ensures Pending(Push(q, |frame|), shm') == Pending(q, shm) + [frame]
  {
    hide Laid, Short, Frames;
    PendingBelow(q, shm, shm');
    var cb, r := FrameCb(q.tail, |frame|), Push(q, |frame|);
    assert r.queue[r.ptr..r.free] == q.queue[q.ptr..q.free] + [cb];
    FramesAppend(shm', q.queue[q.ptr..q.free], cb);
  }

  lemma PopKeeps(q: ShmQueue, shm: seq<byte>)
    requires QueueOk(q) && q.len > 0
    ensures QueueOk(Pop(q)) && Pending(Pop(q), shm) == Pending(q, shm)[1..]
  {
    assert q.queue[q.ptr..q.free][1..] == q.queue[q.ptr + 1..q.free];
  }

  /** The frame at `ptr` is the first one pending and lies in the transmit part of shared memory. */
  lemma Current(q: ShmQueue, shm: seq<byte>)
    requires QueueOk(q) && q.len > 0 && |shm| == SHMEM_SIZE
    ensures var cb := q.queue[q.ptr];
            && SHMEM_TX_START <= cb.start && cb.start + cb.len <= SHMEM_SIZE && cb.len < 0x2000
            && Pending(q, shm) != [] && Pending(q, shm)[0] == Slot(shm, cb)
  {
    var slots := q.queue[..q.free];
    LaidDisjoint(slots, q.tail, q.ptr, q.free);
    assert slots[q.ptr] == q.queue[q.ptr];
  }

  /** Starting the first pending frame extends what has been started by one accepted frame. */
  lemma StartNext(accepted: seq<seq<byte>>, transmitted: seq<seq<byte>>, pending: seq<seq<byte>>)
    requires accepted == transmitted + pending && pending != []
    ensures accepted[..|transmitted|] + [pending[0]] == accepted[..|transmitted| + 1]
  {
  }

  // ---- The chip ----

  /** The last value written to each register. */
  type Registers = map<nat, byte>

  /** Each bank has the registers 1 to 7; the master control register is at 0 in all of them. */
  function Port(bank: nat, off: nat): nat { 8 * bank + off }

  function At(regs: Registers, port: nat): byte {
    if port in regs then regs[port] else 0
  }

  function Reg(regs: Registers, bank: nat, off: nat): byte { At(regs, Port(bank, off)) }

  function DmaCount(regs: Registers): nat {
    Decode(Reg(regs, 1, TX_BYTE_COUNT_LOW), Reg(regs, 1, TX_BYTE_COUNT_HIGH))
  }

  function DmaAddr(regs: Registers): nat {
    Decode(Reg(regs, 3, TX_DMA_ADDR_LOW), Reg(regs, 3, TX_DMA_ADDR_HIGH))
  }

  predicate IsCountPort(p: nat) { p == Port(1, TX_BYTE_COUNT_LOW) || p == Port(1, TX_BYTE_COUNT_HIGH) }

  predicate IsAddrPort(p: nat) {
    p == Port(3, SH_MEM_PAGE) || p == Port(3, TX_DMA_ADDR_LOW) || p == Port(3, TX_DMA_ADDR_HIGH)
  }

  predicate IsDmaPort(p: nat) {
    IsCountPort(p) || IsAddrPort(p) || p == Port(0, MISC) || p == Port(0, TX_CTRL1) || p == Port(0, TX_CTRL2)
  }

  /** The chip has been told to send. */
  predicate Started(regs: Registers) {
    && Reg(regs, 3, SH_MEM_PAGE) == 0
    && Reg(regs, 0, MISC) == DMA_ON
    && Reg(regs, 0, TX_CTRL1) == TX_CTRL1_RTS_UNDR_EOM_I
    && Reg(regs, 0, TX_CTRL2) == TX_CTRL2_EN_TX_CRC_EARLY_EOM_16
  }

  /** The registers after a count and an address have been loaded and the chip started. */
  function DmaRegs(regs: Registers, countLow: byte, countHigh: byte, addrLow: byte, addrHigh: byte): Registers {
    regs[Port(0, MISC) := 0][Port(0, TX_CTRL2) := TX_CTRL2_EN_TX_CRC_EARLY_EOM_16]
        [Port(1, TX_BYTE_COUNT_LOW) := countLow][Port(1, TX_BYTE_COUNT_HIGH) := countHigh]
        [Port(3, SH_MEM_PAGE) := 0][Port(3, TX_DMA_ADDR_LOW) := addrLow][Port(3, TX_DMA_ADDR_HIGH) := addrHigh]
        [Port(0, MISC) := DMA_ON][Port(0, TX_CTRL1) := TX_CTRL1_RTS_UNDR_EOM_I]
  }

  lemma DmaRegsHold(regs: Registers, countLow: byte, countHigh: byte, addrLow: byte, addrHigh: byte)
    ensures var r := DmaRegs(regs, countLow, countHigh, addrLow, addrHigh);
            && Started(r)
            && DmaCount(r) == Decode(countLow, countHigh)
            && DmaAddr(r) == Decode(addrLow, addrHigh)
            && forall p: nat :: !IsDmaPort(p) ==> At(r, p) == At(regs, p)
  {
  }

  /** The same, register by register: bank 0 from place 0, bank 1 from 8, bank 3 from 24. */
  lemma DmaRegsInNumbers(regs: Registers, countLow: byte, countHigh: byte, addrLow: byte, addrHigh: byte)
    ensures var r := DmaRegs(regs, countLow, countHigh, addrLow, addrHigh);
            && At(r, 1) == 0xc0 && At(r, 3) == 0xa0 && At(r, 4) == 0x41
            && At(r, 14) == countLow && At(r, 15) == countHigh
            && At(r, 25) == 0 && At(r, 26) == addrLow && At(r, 27) == addrHigh
            && forall p: nat :: p !in {1, 3, 4, 14, 15, 25, 26, 27} ==> At(r, p) == At(regs, p)
  {
  }

  /** The chip knows a slot and is sending it. */
  predicate Sending(mcr: Mcr, regs: Registers, cb: FrameCb) {
    && DmaCount(regs) == cb.len
    && (cb.len > 0 ==> DmaAddr(regs) == cb.start)
    && mcr.txEn
    && Reg(regs, 0, MISC) == DMA_ON
  }

  /** The octets that a DMA of `count` octets from `addr` reads. */
  function DmaRead(shm: seq<byte>, addr: nat, count: nat): seq<byte> {
    if addr + count <= |shm| then shm[addr..addr + count] else []
  }

  lemma ReadsSlot(shm: seq<byte>, addr: nat, cb: FrameCb)
    requires cb.len > 0 ==> addr == cb.start
    ensures DmaRead(shm, addr, cb.len) == Slot(shm, cb)
  {
  }

  class Chip {
    var mcr: Mcr
    var regs: Registers
    /** The commands that reached the reset command register. */
    var resets: seq<byte>
    const shm: array<byte>

    constructor ()
      ensures fresh(shm) && shm.Length == SHMEM_SIZE
    {
      mcr, regs, resets := Mcr(false, false, false, 0), map[], [];
      shm := new byte[SHMEM_SIZE];
    }

    /** Writes a register of the bank that is selected. */
    method Outb(v: byte, off: nat)
      modifies this`regs, this`resets
      ensures regs == old(regs)[Port(mcr.bank, off) := v]
      ensures resets == if mcr.bank == 0 && off == 7 then old(resets) + [v] else old(resets)
    {
      regs := regs[Port(mcr.bank, off) := v];
      if mcr.bank == 0 && off == RESET {
        resets := resets + [v];
      }
    }

    /** Selects a bank and keeps the interrupt, transmit and receive enable bits. */
    method SwitchBank(bank: nat) returns (oldBank: nat)
      modifies this`mcr
      ensures oldBank == old(mcr.bank) && mcr == old(mcr).(bank := bank)
    {
      oldBank := mcr.bank;
      mcr := mcr.(bank := bank);
    }

    /** Loads the transmit byte count register, in bank 1. */
    method LoadCount(low: byte, high: byte)
      modifies this
      ensures mcr == old(mcr).(bank := 1) && resets == old(resets)
      ensures regs == old(regs)[Port(1, TX_BYTE_COUNT_LOW) := low][Port(1, TX_BYTE_COUNT_HIGH) := high]
    {
      var _ := SwitchBank(1);
      Outb(low, TX_BYTE_COUNT_LOW);
      Outb(high, TX_BYTE_COUNT_HIGH);
    }

    /** Loads the DMA start address, in bank 3. */
    method LoadAddr(low: byte, high: byte)
      modifies this
      ensures mcr == old(mcr).(bank := 3) && resets == old(resets)
      ensures regs == old(regs)[Port(3, SH_MEM_PAGE) := 0]
                               [Port(3, TX_DMA_ADDR_LOW) := low][Port(3, TX_DMA_ADDR_HIGH) := high]
    {
      var _ := SwitchBank(3);
      Outb(0, SH_MEM_PAGE);
      Outb(low, TX_DMA_ADDR_LOW);
      Outb(high, TX_DMA_ADDR_HIGH);
    }

    /**
     Loads the place of a frame and raises RTS (ircard_dma_write). A length or an offset reaches the
     chip exactly when it fits the registers that carry it.
     */
    method StartDma(len: nat, addr: nat)
      modifies this
      ensures mcr == TX_ON && resets == old(resets)
      ensures Started(regs)
      ensures DmaCount(regs) == len <==> len < 0x2000
      ensures DmaAddr(regs) == addr <==> SHMEM_TX_START <= addr < SHMEM_SIZE
      ensures forall p: nat :: !IsDmaPort(p) ==> At(regs, p) == old(At(regs, p))
      ensures mcr == Mcr(true, true, false, 0)
      ensures At(regs, 1) == 0xc0 && At(regs, 3) == 0xa0 && At(regs, 4) == 0x41 && At(regs, 25) == 0
      ensures At(regs, 14) == len % 256 && At(regs, 15) == len / 256 % 32
      ensures At(regs, 26) == addr % 256 && At(regs, 27) == 0x40 + addr / 256 % 64
    {
      var countLow, countHigh := CountRegisters(len);
      var addrLow, addrHigh := AddrRegisters(addr);
      ProgramDma(countLow, countHigh, addrLow, addrHigh);
      DmaRegsHold(old(regs), countLow, countHigh, addrLow, addrHigh);
      DmaRegsInNumbers(old(regs), countLow, countHigh, addrLow, addrHigh);
      hide DmaRegs, At;
    }

    method ProgramDma(countLow: byte, countHigh: byte, addrLow: byte, addrHigh: byte)
      modifies this
      ensures mcr == TX_ON && resets == old(resets)
      ensures regs == DmaRegs(old(regs), countLow, countHigh, addrLow, addrHigh)
    {
      Prepare();
      LoadCount(countLow, countHigh);
      LoadAddr(addrLow, addrHigh);
      RaiseRts();
    }

    /** Stops DMA, enables transmission, and sets the early end-of-message level. */
    method Prepare()
      modifies this
      ensures mcr == TX_ON && resets == old(resets)
      ensures regs == old(regs)[Port(0, MISC) := 0][Port(0, TX_CTRL2) := TX_CTRL2_EN_TX_CRC_EARLY_EOM_16]
    {
      var _ := SwitchBank(0);
      Outb(0, MISC);
      mcr := TX_ON;
      Outb(TX_CTRL2_EN_TX_CRC_EARLY_EOM_16, TX_CTRL2);
    }

    /** Starts DMA and requests to send. */
    method RaiseRts()
      modifies this
      ensures mcr == old(mcr).(bank := 0) && resets == old(resets)
      ensures regs == old(regs)[Port(0, MISC) := DMA_ON][Port(0, TX_CTRL1) := TX_CTRL1_RTS_UNDR_EOM_I]
    {
      var _ := SwitchBank(0);
      Outb(DMA_ON, MISC);
      var _ := SwitchBank(0);
      Outb(TX_CTRL1_RTS_UNDR_EOM_I, TX_CTRL1);
    }

    /**
     Enables reception. The reset commands are written in the bank that was selected on entry, so
     they are commands only when that is bank 0.
     */
    method StartReceive()
      modifies this
      ensures mcr == RX_ON == Mcr(true, false, true, 0)
      ensures Reg(regs, 0, RX_CTRL) == RX_CTRL_EN_CRC_COND_I && Reg(regs, 0, MISC) == DMA_ON
      ensures At(regs, 6) == 0x41 && At(regs, 1) == 0xc0
      ensures forall p: nat :: p != Port(old(mcr.bank), RESET) && p != Port(0, RX_CTRL) && p != Port(0, MISC) ==>
                At(regs, p) == old(At(regs, p))
      ensures resets == old(resets) + if old(mcr.bank) == 0 then [0x30, 0x40] else []
    {
      var bank := SwitchBank(0);
      mcr := Mcr(true, false, false, bank);
      Outb(RESET_RX_SPEC_BITS, RESET);
      Outb(RESET_RX_RFP, RESET);
      mcr := Mcr(true, false, true, bank);
      var _ := SwitchBank(0);
      Outb(RX_CTRL_EN_CRC_COND_I, RX_CTRL);
      Outb(DMA_ON, MISC);
    }

    /**
     Stops a transmission. The two writes after the master control register go to the bank that was
     selected on entry, so DMA is switched off and the reset command given only when that is bank 0.
     */
    method StopDma()
      modifies this
      ensures mcr == Mcr(true, false, false, old(mcr.bank))
      ensures Reg(regs, old(mcr.bank), MISC) == At(regs, 8 * old(mcr.bank) + 1) == 0
      ensures old(mcr.bank) != 0 ==> Reg(regs, 0, MISC) == old(Reg(regs, 0, MISC))
      ensures forall p: nat :: p != Port(old(mcr.bank), MISC) && p != Port(old(mcr.bank), RESET) ==>
                At(regs, p) == old(At(regs, p))
      ensures resets == old(resets) + if old(mcr.bank) == 0 then [0x50] else []
    {
      var bank := SwitchBank(0);
      mcr := Mcr(true, false, false, bank);
      Outb(0, MISC);
      Outb(RESET_TX_SPEC_BITS, RESET);
    }

    /** Resets the hardware and selects the modulation for a speed (ircard_change_speed). */
    method SelectSpeed(speed: nat)
      modifies this
      ensures mcr == Mcr(false, false, false, 2)
      ensures Reg(regs, 2, IR_CONF) == if speed == 576000 then IR_CONF_MIR_576
                                       else if speed == 1152000 then IR_CONF_MIR_1152
                                       else if speed == 4000000 then IR_CONF_FIR
                                       else IR_CONF_SIR
      ensures At(regs, 17) == if speed == 576000 then 0x12 else if speed == 1152000 then 0x02
                              else if speed == 4000000 then 0x04 else 0x00
      ensures resets == old(resets) + [RESET_ALL] == old(resets) + [0x07]
    {
      mcr := Mcr(false, false, false, 0);
      Outb(RESET_ALL, RESET);
      mcr := Mcr(false, false, false, 2);
      if speed == 576000 {
        Outb(IR_CONF_MIR_576, IR_CONF);
      } else if speed == 1152000 {
        Outb(IR_CONF_MIR_1152, IR_CONF);
      } else if speed == 4000000 {
        Outb(IR_CONF_FIR, IR_CONF);
      } else {
        Outb(IR_CONF_SIR, IR_CONF);
      }
    }

    /** What the chip sends when asked to. */
    ghost function FrameOnWire(): seq<byte>
      reads this`regs, shm
    {
      DmaRead(shm[..], DmaAddr(regs), DmaCount(regs))
    }
  }

  // ---- The driver ----

  datatype Event = TxCond(txqueueEmpty: bool) | RxCond(overrun: bool) | Other

  function Completions(events: seq<Event>): nat {
    if events == [] then 0
    else Completions(events[..|events| - 1]) + if events[|events| - 1].TxCond? then 1 else 0
  }

  lemma {:induction false} CompletionsMonotonic(events: seq<Event>, n: nat)
    requires n <= |events|
    ensures Completions(events[..n]) <= Completions(events)
    decreases |events|
  {
    if n < |events| {
      CompletionsMonotonic(events[..|events| - 1], n);
      assert events[..|events| - 1][..n] == events[..n];
    } else {
      assert events[..n] == events;
    }
  }

  // ---- The queue, without the card ----

  /** A completion moves on to the next frame, or starts the queue afresh before reception. */
  function AfterEvent(q: ShmQueue, e: Event): ShmQueue {
    if !e.TxCond? || q.len == 0 then q
    else if q.len == 1 && e.txqueueEmpty then Reset(q)
    else Pop(q)
  }

  function AfterEvents(q: ShmQueue, events: seq<Event>): ShmQueue {
    if events == [] then q else AfterEvent(AfterEvents(q, events[..|events| - 1]), events[|events| - 1])
  }

  /** The bank that an event leaves selected, given the frames left and the bank before it. */
  function EventBank(e: Event, left: nat, bank: nat): nat {
    match e
    case TxCond(txqueueEmpty) => if txqueueEmpty || left > 0 then 0 else bank
    case RxCond(overrun) => if overrun then 0 else 1
    case Other => bank
  }

  function BankAfter(q: ShmQueue, events: seq<Event>): nat {
    if events == [] then 0
    else EventBank(events[|events| - 1], AfterEvents(q, events).len, BankAfter(q, events[..|events| - 1]))
  }

  /** The last event is the end of a transmission after which more is to come from the network layer. */
  predicate EndsSending(events: seq<Event>) { events != [] && events[|events| - 1] == TxCond(false) }

  lemma NoEvents(q: ShmQueue)
    ensures AfterEvents(q, []) == q && BankAfter(q, []) == 0 && Completions([]) == 0
  {
  }

  lemma OneMoreEvent(q: ShmQueue, events: seq<Event>, n: nat)
    requires n < |events|
    ensures var done, more, e := events[..n], events[..n + 1], events[n];
            && AfterEvents(q, more) == AfterEvent(AfterEvents(q, done), e)
            && BankAfter(q, more) == EventBank(e, AfterEvents(q, more).len, BankAfter(q, done))
            && Completions(more) == Completions(done) + if e.TxCond? then 1 else 0
  {
    assert events[..n + 1][..n] == events[..n];
  }

  /** One more of the events that are to be dealt with. */
  lemma NextEvent(q: ShmQueue, todo: seq<Event>, done: seq<Event>, e: Event)
    requires done + [e] <= todo
    ensures AfterEvents(q, done + [e]) == AfterEvent(AfterEvents(q, done), e)
    ensures BankAfter(q, done + [e]) == EventBank(e, AfterEvents(q, done + [e]).len, BankAfter(q, done))
    ensures Completions(done + [e]) == Completions(done) + if e.TxCond? then 1 else 0
    ensures Completions(done + [e]) <= Completions(todo)
  {
    assert (done + [e])[..|done|] == done;
    assert todo[..|done| + 1] == done + [e];
    CompletionsMonotonic(todo, |done| + 1);
  }

  lemma {:induction false} AfterEventsLen(q: ShmQueue, events: seq<Event>)
    requires Completions(events) <= q.len
    ensures AfterEvents(q, events).len == q.len - Completions(events)
  {
    if events != [] {
      AfterEventsLen(q, events[..|events| - 1]);
    }
  }

  // ---- What an interrupt gets to see ----

  /**
   What there is to read when the interrupt asks for the next event: the master status register and
   the frame address register, which is at the same place of bank 1; whether the network layer has
   nothing to send; and whether a frame that was received was overrun.
   */
  datatype Report = Report(msr: byte, frameAddr: byte, txqueueEmpty: bool, overrun: bool)
  {
    /** What is read from place 1 of a bank, without the bits that do not identify an event. */
    function Id(bank: nat): byte { (if bank == 0 then msr else frameAddr) / 2 % 8 * 2 }

    function Event(bank: nat): Event {
      var id := Id(bank);
      if id == MSR_TX_COND_ID then TxCond(txqueueEmpty)
      else if id == MSR_RX_DATA_ID || id == MSR_RX_COND_ID then RxCond(overrun)
      else Other
    }
  }

  /** The three bits that identify an event are 7 for a completion, 4 or 5 for a reception, and 0 for nothing. */
  lemma EventsInNumbers(r: Report)
    ensures r.Event(0).TxCond? <==> r.msr / 2 % 8 == 7
    ensures r.Event(0).RxCond? <==> r.msr / 2 % 8 in {4, 5}
    ensures r.Id(0) == 0 <==> r.msr / 2 % 8 == 0
    ensures r.Event(1).TxCond? <==> r.frameAddr / 2 % 8 == 7
    ensures r.Event(1).RxCond? <==> r.frameAddr / 2 % 8 in {4, 5}
    ensures r.Id(1) == 0 <==> r.frameAddr / 2 % 8 == 0
    ensures forall bank: nat :: r.Event(bank).TxCond? ==> r.Event(bank).txqueueEmpty == r.txqueueEmpty
    ensures forall bank: nat :: r.Event(bank).RxCond? ==> r.Event(bank).overrun == r.overrun
  {
  }

  /** The events among the first `n` reports: each is read in the bank that those before it leave. */
  function Todo(q: ShmQueue, reports: seq<Report>, n: nat): (todo: seq<Event>)
    requires n <= |reports|
    ensures |todo| <= n
  {
    if n == 0 then []
    else
      var done := Todo(q, reports, n - 1);
      var bank := BankAfter(q, done);
      if |done| < n - 1 || reports[n - 1].Id(bank) == 0 then done else done + [reports[n - 1].Event(bank)]
  }

  /** The events that one interrupt gets to. Behind the reports there is nothing more. */
  function Handled(q: ShmQueue, reports: seq<Report>): seq<Event> {
    Todo(q, reports, if |reports| <= MAX_EVENTS then |reports| else MAX_EVENTS)
  }

  lemma {:induction false} TodoPrefix(q: ShmQueue, reports: seq<Report>, k: nat, n: nat)
    requires k <= n <= |reports|
    ensures Todo(q, reports, k) <= Todo(q, reports, n)
    ensures |Todo(q, reports, k)| < k ==> Todo(q, reports, n) == Todo(q, reports, k)
    ensures k <= |Todo(q, reports, n)| ==> Todo(q, reports, k) == Todo(q, reports, n)[..k]
    decreases n
  {
    hide BankAfter;
    if k < n {
      TodoPrefix(q, reports, k, n - 1);
    }
  }

  lemma NothingRead(q: ShmQueue, reports: seq<Report>)
    ensures Todo(q, reports, 0) == []
  {
  }

  /** What the next report leads to. */
  lemma NextReport(q: ShmQueue, reports: seq<Report>, k: nat, n: nat)
    requires k < n <= |reports| && |Todo(q, reports, k)| == k
    ensures var done, r := Todo(q, reports, k), reports[k];
            var bank := BankAfter(q, done);
            if r.Id(bank) == 0 then Todo(q, reports, n) == done
            else Todo(q, reports, k + 1) == done + [r.Event(bank)] <= Todo(q, reports, n)
  {
    hide BankAfter;
    TodoPrefix(q, reports, k + 1, n);
  }

  /** An event is read from the master status register if and only if those before it leave bank 0. */
  lemma EventSource(q: ShmQueue, reports: seq<Report>, k: nat)
    requires k < |Handled(q, reports)|
    ensures var bank := BankAfter(q, Handled(q, reports)[..k]);
            && k < |reports| && reports[k].Id(bank) != 0 && Handled(q, reports)[k] == reports[k].Event(bank)
            && reports[k].Id(bank) == (if bank == 0 then reports[k].msr else reports[k].frameAddr) / 2 % 8 * 2
  {
    hide BankAfter;
    var n := if |reports| <= MAX_EVENTS then |reports| else MAX_EVENTS;
    TodoPrefix(q, reports, k, n);
    TodoPrefix(q, reports, k + 1, n);
    assert Todo(q, reports, k + 1) == Todo(q, reports, n)[..k + 1];
  }

  /** When reading stops early, nothing was to be read. */
  lemma {:induction false} NothingLeft(q: ShmQueue, reports: seq<Report>, n: nat)
    requires n <= |reports| && |Todo(q, reports, n)| < n
    ensures var t := Todo(q, reports, n); reports[|t|].Id(BankAfter(q, t)) == 0
  {
    hide BankAfter;
    if |Todo(q, reports, n - 1)| < n - 1 {
      NothingLeft(q, reports, n - 1);
    }
  }

  /** What the master status register says first is dealt with. */
  lemma FirstIsCounted(q: ShmQueue, reports: seq<Report>)
    ensures reports != [] && reports[0].msr / 2 % 8 != 0 ==> |Handled(q, reports)| > 0
    ensures reports != [] && reports[0].msr / 2 % 8 == 7 ==> Completions(Handled(q, reports)) > 0
  {
    var todo := Handled(q, reports);
    if reports != [] && reports[0].msr / 2 % 8 != 0 {
      var n := if |reports| <= MAX_EVENTS then |reports| else MAX_EVENTS;
      EventsInNumbers(reports[0]);
      NoEvents(q);
      NothingRead(q, reports);
      hide BankAfter;
      NextReport(q, reports, 0, n);
      CompletionsMonotonic(todo, 1);
      assert todo[..1] == [reports[0].Event(0)] && todo[..1][..0] == [];
    }
  }

  /** Reports that only say something else are all read. */
  lemma {:induction false} OthersRead(q: ShmQueue, reports: seq<Report>, n: nat)
    requires n <= |reports| && forall k :: 0 <= k < |reports| ==> reports[k].msr / 2 % 8 == 6
    ensures |Todo(q, reports, n)| == n && BankAfter(q, Todo(q, reports, n)) == 0
  {
    hide AfterEvents, BankAfter, Completions;
    NoEvents(q);
    if n > 0 {
      OthersRead(q, reports, n - 1);
      var done := Todo(q, reports, n - 1);
      assert reports[n - 1].Id(0) == 12 && reports[n - 1].Event(0) == Other;
      NextEvent(q, done + [Other], done, Other);
    }
  }

  /** And dealt with, but no more than twelve of them. */
  lemma TwelveAtMost(q: ShmQueue, reports: seq<Report>)
    requires forall k :: 0 <= k < |reports| ==> reports[k].msr / 2 % 8 == 6
    ensures |Handled(q, reports)| == if |reports| <= 12 then |reports| else 12
  {
    OthersRead(q, reports, if |reports| <= 12 then |reports| else 12);
  }

  /**
   With a frame address register that does not change, a completion is left with DMA on only when it
   is the last event that an interrupt has time for.
   */
  lemma LateOnlyAtTheEnd(q: ShmQueue, reports: seq<Report>, frameAddr: byte)
    requires |reports| >= MAX_EVENTS && forall k :: 0 <= k < |reports| ==> reports[k].frameAddr == frameAddr
    requires var todo := Handled(q, reports);
             EndsSending(todo) && AfterEvents(q, todo).len == 0 && BankAfter(q, todo[..|todo| - 1]) != 0
    ensures |Handled(q, reports)| == MAX_EVENTS
  {
    var todo := Handled(q, reports);
    EventSource(q, reports, |todo| - 1);
    OneMoreEvent(q, todo, |todo| - 1);
    assert todo[..|todo|] == todo;
    if |todo| < MAX_EVENTS {
      NothingLeft(q, reports, MAX_EVENTS);
    }
  }

  datatype Op = Xmit(frame: seq<byte>) | Irq(reports: seq<Report>) | Speed(speed: nat)

  /** The queue and the speed: at 115200 baud and below the card is left to the serial port driver. */
  datatype Line = Line(q: ShmQueue, baudrate: nat)
  {
    predicate Fast() { baudrate > 115200 }

    function Handles(reports: seq<Report>): seq<Event> { if Fast() then Handled(q, reports) else [] }
  }

  /** What the environment sees to. */
  predicate Possible(l: Line, op: Op) {
    match op
    case Xmit(frame) => l.Fast() && Fits(l.q, frame)
    case Irq(reports) => Completions(l.Handles(reports)) <= l.q.len
    case Speed(_) => l.q.len == 0
  }

  /** The guards, in numbers. */
  lemma PossibleInNumbers(l: Line, frame: seq<byte>)
    ensures Possible(l, Xmit(frame)) <==>
            l.baudrate > 115200 && l.q.free < 8 && |frame| < 8192 && l.q.tail + |frame| <= 0x8000
    ensures Reset(l.q).tail == 0x4000 && MAX_EVENTS == 12
    ensures forall speed: nat :: Possible(l, Speed(speed)) <==> l.q.len == 0
  {
  }

  /** A window, in numbers. */
  lemma WindowInNumbers(frames: seq<seq<byte>>)
    ensures IsWindow(frames) <==>
            && 1 <= |frames| <= 8 && Octets(frames) <= 0x4000
            && forall k :: 0 <= k < |frames| ==> |frames[k]| < 8192
  {
  }

  lemma {:induction false} OctetsAppend(a: seq<seq<byte>>, b: seq<seq<byte>>)
    ensures Octets(a + b) == Octets(a) + Octets(b) && Octets([]) == 0
    decreases |a|
  {
    if a == [] {
      assert a + b == b;
    } else {
      assert (a + b)[0] == a[0] && (a + b)[1..] == a[1..] + b;
      OctetsAppend(a[1..], b);
    }
  }

  function After(l: Line, op: Op): Line {
    match op
    case Xmit(frame) => if l.q.free < |l.q.queue| then l.(q := Push(l.q, |frame|)) else l
    case Irq(reports) => l.(q := AfterEvents(l.q, l.Handles(reports)))
    case Speed(speed) => Line(if speed > 115200 then Reset(l.q) else l.q, speed)
  }

  predicate AllPossible(l: Line, ops: seq<Op>)
    decreases |ops|
  {
    ops == [] || (Possible(l, ops[0]) && AllPossible(After(l, ops[0]), ops[1..]))
  }

  function AfterAll(l: Line, ops: seq<Op>): Line
    decreases |ops|
  {
    if ops == [] then l else AfterAll(After(l, ops[0]), ops[1..])
  }

  /** The frames that a run takes from the network layer. */
  function FramesOf(ops: seq<Op>): seq<seq<byte>> {
    if ops == [] then [] else (if ops[0].Xmit? then [ops[0].frame] else []) + FramesOf(ops[1..])
  }

  /** How many frames a run reports as sent. */
  function Sent(l: Line, ops: seq<Op>): nat
    decreases |ops|
  {
    if ops == [] then 0 else SentBy(l, ops[0]) + Sent(After(l, ops[0]), ops[1..])
  }

  function SentBy(l: Line, op: Op): nat { if op.Irq? then Completions(l.Handles(op.reports)) else 0 }

  function Xmits(frames: seq<seq<byte>>): seq<Op> {
    if frames == [] then [] else [Xmit(frames[0])] + Xmits(frames[1..])
  }

  function Octets(frames: seq<seq<byte>>): nat {
    if frames == [] then 0 else |frames[0]| + Octets(frames[1..])
  }

  /** Frames that fit the rest of the window and of shared memory can all be sent off. */
  lemma {:induction false} WindowPossible(l: Line, frames: seq<seq<byte>>)
    requires l.Fast() && |l.q.queue| == MAX_WINDOW
    requires l.q.free + |frames| <= MAX_WINDOW && l.q.tail + Octets(frames) <= SHMEM_SIZE
    requires forall k :: 0 <= k < |frames| ==> |frames[k]| < 0x2000
    ensures AllPossible(l, Xmits(frames)) && FramesOf(Xmits(frames)) == frames
    ensures var q := AfterAll(l, Xmits(frames)).q; q.len == l.q.len + |frames| && q.free == l.q.free + |frames|
    ensures AfterAll(l, Xmits(frames)).Fast()
    decreases |frames|
  {
    if frames != [] {
      var ops := Xmits(frames);
      assert ops[0] == Xmit(frames[0]) && ops[1..] == Xmits(frames[1..]);
      WindowPossible(After(l, ops[0]), frames[1..]);
    }
  }

  // ---- Runs that are possible ----

  lemma {:induction false} RunsAppend(l: Line, a: seq<Op>, b: seq<Op>)
    ensures AllPossible(l, a + b) <==> AllPossible(l, a) && AllPossible(AfterAll(l, a), b)
    ensures AfterAll(l, a + b) == AfterAll(AfterAll(l, a), b)
    ensures FramesOf(a + b) == FramesOf(a) + FramesOf(b)
    ensures Sent(l, a + b) == Sent(l, a) + Sent(AfterAll(l, a), b)
    decreases |a|
  {
    hide Possible, After, SentBy;
    if a == [] {
      assert a + b == b;
    } else {
      assert (a + b)[0] == a[0] && (a + b)[1..] == a[1..] + b;
      RunsAppend(After(l, a[0]), a[1..], b);
      Associative(if a[0].Xmit? then [a[0].frame] else [], FramesOf(a[1..]), FramesOf(b));
    }
  }

  /** As many completions, with nothing more to come from the network layer. */
  function Dones(n: nat): (e: seq<Event>)
    ensures |e| == n
  {
    if n == 0 then [] else Dones(n - 1) + [TxCond(true)]
  }

  lemma {:induction false} DonesPop(q: ShmQueue, n: nat)
    requires n <= q.len
    ensures Completions(Dones(n)) == n
    ensures n < q.len ==> AfterEvents(q, Dones(n)) == q.(ptr := q.ptr + n, len := q.len - n)
    ensures 0 < n == q.len ==> AfterEvents(q, Dones(n)) == Reset(q)
  {
    hide AfterEvents, BankAfter, Completions;
    NoEvents(q);
    if n > 0 {
      DonesPop(q, n - 1);
      NextEvent(q, Dones(n), Dones(n - 1), TxCond(true));
    }
  }

  /** The reports of as many completions. */
  function DoneReports(n: nat): (r: seq<Report>)
    ensures |r| == n && forall k :: 0 <= k < n ==> r[k] == Report(MSR_TX_COND_ID, 0, true, false)
  {
    if n == 0 then [] else DoneReports(n - 1) + [Report(MSR_TX_COND_ID, 0, true, false)]
  }

  lemma {:induction false} DonesRead(q: ShmQueue, reports: seq<Report>, n: nat)
    requires n <= |reports| && forall k :: 0 <= k < n ==> reports[k] == Report(MSR_TX_COND_ID, 0, true, false)
    ensures Todo(q, reports, n) == Dones(n) && BankAfter(q, Dones(n)) == 0
  {
    hide AfterEvents, BankAfter, Completions;
    NoEvents(q);
    if n > 0 {
      DonesRead(q, reports, n - 1);
      OneMoreDone(q, reports[n - 1], Dones(n - 1));
    }
  }

  lemma OneMoreDone(q: ShmQueue, r: Report, done: seq<Event>)
    requires r == Report(MSR_TX_COND_ID, 0, true, false)
    ensures r.Id(0) != 0 && r.Event(0) == TxCond(true) && BankAfter(q, done + [TxCond(true)]) == 0
  {
    assert r.Id(0) == MSR_TX_COND_ID;
    NextEvent(q, done + [TxCond(true)], done, TxCond(true));
  }

  predicate Fresh(q: ShmQueue) {
    |q.queue| == MAX_WINDOW && q.ptr == q.len == q.free == 0 && q.tail == SHMEM_TX_START
  }

  /** Frames that make up a window and fit shared memory and the byte count register. */
  predicate IsWindow(frames: seq<seq<byte>>) {
    && 0 < |frames| <= MAX_WINDOW && SHMEM_TX_START + Octets(frames) <= SHMEM_SIZE
    && forall k :: 0 <= k < |frames| ==> |frames[k]| < 0x2000
  }

  /** A window that is sent off, and the interrupt that reports all of it. */
  function Round(frames: seq<seq<byte>>): seq<Op> { Xmits(frames) + [Irq(DoneReports(|frames|))] }

  lemma RoundPossible(l: Line, frames: seq<seq<byte>>)
    requires l.Fast() && Fresh(l.q) && IsWindow(frames)
    ensures AllPossible(l, Round(frames)) && FramesOf(Round(frames)) == frames && Sent(l, Round(frames)) == |frames|
    ensures AfterAll(l, Round(frames)).Fast() && Fresh(AfterAll(l, Round(frames)).q)
  {
    hide AllPossible, AfterAll, Sent, FramesOf, Completions, AfterEvents, Dones, Todo, Octets;
    WindowPossible(l, frames);
    NoneSent(l, frames);
    var m, irq := AfterAll(l, Xmits(frames)), Irq(DoneReports(|frames|));
    RunsAppend(l, Xmits(frames), [irq]);
    DonesPop(m.q, |frames|);
    DonesRead(m.q, irq.reports, |frames|);
    OneOp(m, irq);
    assert m.Handles(irq.reports) == Dones(|frames|);
  }

  lemma OneOp(l: Line, op: Op)
    ensures AllPossible(l, [op]) <==> Possible(l, op)
    ensures AfterAll(l, [op]) == After(l, op) && Sent(l, [op]) == SentBy(l, op)
    ensures FramesOf([op]) == if op.Xmit? then [op.frame] else []
  {
    hide Possible, After, SentBy;
    assert [op][1..] == [];
  }

  lemma {:induction false} NoneSent(l: Line, frames: seq<seq<byte>>)
    ensures Sent(l, Xmits(frames)) == 0
    ensures |AfterAll(l, Xmits(frames)).q.queue| == |l.q.queue|
    decreases |frames|
  {
    if frames != [] {
      assert Xmits(frames)[1..] == Xmits(frames[1..]);
      NoneSent(After(l, Xmit(frames[0])), frames[1..]);
    }
  }

  function Rounds(windows: seq<seq<seq<byte>>>): seq<Op> {
    if windows == [] then [] else Round(windows[0]) + Rounds(windows[1..])
  }

  function AllFrames(windows: seq<seq<seq<byte>>>): seq<seq<byte>> {
    if windows == [] then [] else windows[0] + AllFrames(windows[1..])
  }

  /** Window after window can be sent off, without end, and every frame of them is reported as sent. */
  lemma {:induction false} WindowsPossible(l: Line, windows: seq<seq<seq<byte>>>)
    requires l.Fast() && Fresh(l.q) && forall k :: 0 <= k < |windows| ==> IsWindow(windows[k])
    ensures AllPossible(l, Rounds(windows)) && FramesOf(Rounds(windows)) == AllFrames(windows)
    ensures Sent(l, Rounds(windows)) == |AllFrames(windows)|
    decreases |windows|
  {
    if windows != [] {
      RoundPossible(l, windows[0]);
      hide Round, Fresh, IsWindow;
      var m := AfterAll(l, Round(windows[0]));
      WindowsPossible(m, windows[1..]);
      RunsAppend(l, Round(windows[0]), Rounds(windows[1..]));
    }
  }

  class Driver {
    const chip: Chip
    var txq: ShmQueue
    var tbusy: bool
    var baudrate: nat

    /** Frames taken from the network layer, told to the chip, and reported as sent. */
    ghost var accepted: seq<seq<byte>>
    ghost var started: seq<seq<byte>>
    ghost var transmitted: seq<seq<byte>>

    /** The frames that the queue refers to, as they stand in shared memory. */
    ghost function Queued(): seq<seq<byte>>
      reads this`txq, chip.shm
    {
      Pending(txq, chip.shm[..])
    }

    /** No frame is lost, repeated, reordered or altered on its way through the card. */
    ghost predicate Conserved()
      reads this`txq, this`accepted, this`transmitted, chip.shm
    {
      QueueOk(txq) && chip.shm.Length == SHMEM_SIZE && accepted == transmitted + Queued()
    }

    /** The chip has been told about exactly the frames sent and the one at `ptr`. */
    ghost predicate Transmitting()
      reads this`txq, this`accepted, this`transmitted, this`started, chip
    {
      && |started| == |transmitted| + (if txq.len > 0 then 1 else 0) <= |accepted|
      && started == accepted[..|started|]
      && (txq.len > 0 ==> txq.ptr < |txq.queue| && Sending(chip.mcr, chip.regs, txq.queue[txq.ptr]))
    }

    ghost predicate Valid()
      reads this`txq, this`accepted, this`transmitted, this`started, chip, chip.shm
    {
      Conserved() && Transmitting()
    }

    constructor ()
      ensures Valid() && fresh(chip) && fresh(chip.shm) && !tbusy && baudrate == 9600
      ensures txq.ptr == txq.len == txq.free == 0 && txq.tail == SHMEM_TX_START && |txq.queue| == MAX_WINDOW
      ensures accepted == transmitted == started == []
    {
      chip := new Chip();
      txq := ShmQueue(seq(MAX_WINDOW, _ => FrameCb(0, 0)), 0, 0, 0, SHMEM_TX_START);
      tbusy := false;
      baudrate := 9600;
      accepted, started, transmitted := [], [], [];
    }

    /** Points the chip at the frame at `ptr` and starts it (ircard_dma_write). */
    method DmaWrite()
      requires Conserved() && txq.len > 0
      requires |transmitted| <= |accepted| && started == accepted[..|transmitted|]
      modifies chip, this`started
      ensures Valid()
      ensures started == old(started) + [accepted[|transmitted|]]
      ensures chip.FrameOnWire() == accepted[|transmitted|]
      ensures Started(chip.regs) && chip.mcr == TX_ON && chip.resets == old(chip.resets)
      ensures forall p: nat :: !IsDmaPort(p) ==> At(chip.regs, p) == old(At(chip.regs, p))
    {
      hide QueueOk, Pending, Conserved, Queued, DmaRead, Slot, DmaCount, DmaAddr, Reg, At;
      Next();
      var cb := txq.queue[txq.ptr];
      chip.StartDma(cb.len, cb.start);
      ReadsSlot(chip.shm[..], DmaAddr(chip.regs), cb);
      started := started + [chip.FrameOnWire()];
      assert started == accepted[..|transmitted|] + [accepted[|transmitted|]];
    }

    /** The frame at `ptr` is the first accepted frame that has not been sent. */
    lemma Next()
      requires Conserved() && txq.len > 0 && |transmitted| <= |accepted|
      ensures |transmitted| < |accepted| && txq.ptr < |txq.queue|
      ensures accepted[..|transmitted|] + [accepted[|transmitted|]] == accepted[..|transmitted| + 1]
      ensures var cb := txq.queue[txq.ptr];
              && SHMEM_TX_START <= cb.start && cb.start + cb.len <= SHMEM_SIZE && cb.len < 0x2000
              && Slot(chip.shm[..], cb) == accepted[|transmitted|]
    {
      Current(txq, chip.shm[..]);
      StartNext(accepted, transmitted, Queued());
    }

    /** Gets ready for receiving, which forgets the transmit queue (ircard_receive). */
    method Receive()
      requires |txq.queue| == MAX_WINDOW
      modifies chip, this`txq
      ensures txq == Reset(old(txq)) && QueueOk(txq) && Queued() == []
      ensures chip.mcr == RX_ON
      ensures Reg(chip.regs, 0, RX_CTRL) == RX_CTRL_EN_CRC_COND_I && Reg(chip.regs, 0, MISC) == DMA_ON
      ensures chip.resets == old(chip.resets) + if old(chip.mcr.bank) == 0 then [0x30, 0x40] else []
    {
      chip.StartReceive();
      txq := Reset(txq);
    }

    /**
     Queues a frame and starts the chip when it is idle. The window and the size of shared memory
     are not checked here: not exceeding them is up to the callers.
     */
    method HardXmit(frame: seq<byte>) returns (busy: bool)
      requires Valid() && Fits(txq, frame)
      modifies this, chip, chip.shm
      ensures Valid()
      ensures busy == old(tbusy)
      ensures busy ==> unchanged(this, chip, chip.shm)
      ensures baudrate == old(baudrate)
      ensures !busy ==> !tbusy && txq == Push(old(txq), |frame|)
      ensures !busy ==> accepted == old(accepted) + [frame] && transmitted == old(transmitted)
      ensures !busy ==> Queued() == old(Queued()) + [frame]
      ensures !busy && old(txq.len) == 0 ==> Started(chip.regs) && chip.mcr == TX_ON
      ensures !busy && old(txq.len) > 0 ==> chip.regs == old(chip.regs) && chip.mcr == old(chip.mcr).(bank := 0)
    {
      hide Conserved, Transmitting, QueueOk, Pending, Started;
      if tbusy {
        return true;
      }
      tbusy := true;
      Enqueue(frame);
      if txq.len == 1 {
        DmaWrite();
      }
      tbusy := false;
      return false;
    }

    /** Puts a frame behind those that are queued. */
    method Enqueue(frame: seq<byte>)
      requires Valid() && Fits(txq, frame)
      modifies this`txq, this`accepted, chip`mcr, chip.shm
      ensures Conserved()
      ensures txq == Push(old(txq), |frame|)
      ensures Queued() == old(Queued()) + [frame] && accepted == old(accepted) + [frame]
      ensures chip.mcr == old(chip.mcr).(bank := 0)
      ensures old(txq.len) == 0 ==> |transmitted| <= |accepted| && started == accepted[..|transmitted|]
      ensures old(txq.len) > 0 ==> Valid()
    {
      hide QueueOk, Pending;
      ghost var shm := chip.shm[..];
      var start := txq.tail;
      var _ := chip.SwitchBank(0);
      PushOk(txq, frame);
      txq := Push(txq, |frame|);
      forall i | 0 <= i < |frame| {
        chip.shm[start + i] := frame[i];
      }
      PushKeeps(old(txq), shm, chip.shm[..], frame);
      accepted := accepted + [frame];
    }

    /**
     The frame at `ptr` has been sent: go on with the next one, or get ready to receive when neither
     the card nor the network layer has any. Entered from another bank than 0, the writes that
     should end the transmission miss their registers.
     */
    method XmitComplete(txqueueEmpty: bool)
      requires Valid() && txq.len > 0
      modifies chip, this`txq, this`tbusy, this`started, this`transmitted
      ensures Valid()
      ensures |transmitted| == old(|transmitted|) + 1 && !tbusy
      ensures txq == if old(txq.len) == 1 && txqueueEmpty then Reset(old(txq)) else Pop(old(txq))
      ensures txq.len > 0 ==> chip.mcr == TX_ON && Started(chip.regs) && chip.FrameOnWire() == accepted[|transmitted|]
      ensures txq.len == 0 ==> chip.mcr == if txqueueEmpty then RX_ON else Mcr(true, false, false, old(chip.mcr.bank))
      ensures txq.len == 0 && !txqueueEmpty ==> (Reg(chip.regs, 0, MISC) == 0 <==> old(chip.mcr.bank) == 0)
      ensures chip.resets == old(chip.resets) +
                             (if old(chip.mcr.bank) != 0 then []
                              else if txq.len == 0 && txqueueEmpty then [0x50, 0x30, 0x40]
                              else [0x50])
    {
      hide QueueOk, Pending, Started, Conserved, Transmitting, Queued;
      Busy();
      chip.StopDma();
      tbusy := false;
      Dequeue();
      if txq.len > 0 {
        DmaWrite();
      } else {
        if txqueueEmpty {
          chip.Outb(0, TX_CTRL1);
          Receive();
          Emptied();
        }
        Idle();
      }
    }

    /** Takes the frame at `ptr` for sent. */
    method Dequeue()
      requires Conserved() && txq.len > 0
      requires |started| == |transmitted| + 1 <= |accepted| && started == accepted[..|started|]
      modifies this`txq, this`transmitted
      ensures Conserved() && txq == Pop(old(txq))
      ensures |txq.queue| == MAX_WINDOW && chip.shm.Length == SHMEM_SIZE
      ensures |transmitted| == old(|transmitted|) + 1 <= |accepted| && started == accepted[..|transmitted|]
      ensures Queued() == old(Queued())[1..] && (txq.len == 0 ==> accepted == transmitted == started)
    {
      hide Laid, Short;
      Current(txq, chip.shm[..]);
      PopKeeps(txq, chip.shm[..]);
      transmitted := transmitted + [Queued()[0]];
      txq := Pop(txq);
    }

    /** While a frame is being sent, the chip has been told about one more frame than were sent. */
    lemma Busy()
      requires Valid() && txq.len > 0
      ensures |started| == |transmitted| + 1 <= |accepted| && started == accepted[..|started|]
      ensures Reg(chip.regs, 0, MISC) == DMA_ON
    {
    }

    /** While frames are queued, what the chip sends is the first of them. */
    lemma OnTheWire()
      requires Valid() && txq.len > 0
      ensures Queued() != [] && chip.FrameOnWire() == Queued()[0]
    {
      Current(txq, chip.shm[..]);
      hide QueueOk, Pending, DmaRead, DmaCount, DmaAddr;
      ReadsSlot(chip.shm[..], DmaAddr(chip.regs), txq.queue[txq.ptr]);
    }

    /** With nothing queued, the chip has been told about exactly the frames sent. */
    lemma Idle()
      requires Conserved() && txq.len == 0 && accepted == transmitted == started
      ensures Valid()
    {
    }

    /** An empty queue conserves the frames when all of them have been sent. */
    lemma Emptied()
      requires QueueOk(txq) && Queued() == [] && chip.shm.Length == SHMEM_SIZE && accepted == transmitted
      ensures Conserved()
    {
    }

    /** A frame has been received. This leaves bank 1 selected, or bank 0 after an overrun. */
    method ReceiveComplete(overrun: bool)
      requires Valid()
      modifies chip
      ensures Valid()
      ensures chip.mcr == old(chip.mcr).(bank := if overrun then 0 else 1)
      ensures chip.resets == old(chip.resets) + if overrun then [0x30] else []
    {
      hide QueueOk, Conserved, Queued, Pending, Decode;
      var _ := chip.SwitchBank(1);
      if overrun {
        var _ := chip.SwitchBank(0);
        chip.Outb(RESET_RX_SPEC_BITS, RESET);
      }
    }

    /**
     Deals with the events that it reads, no more than twelve of them, and goes back to the bank that
     was selected. At a serial speed that is up to the serial port driver. Completions are read for
     queued frames only. Whether the last of them switches DMA off depends on the events before it.
     */
    method Interrupt(reports: seq<Report>) returns (handled: nat)
      requires Valid() && Completions(Line(txq, baudrate).Handles(reports)) <= txq.len
      modifies chip, this`txq, this`tbusy, this`started, this`transmitted
      ensures Valid() && (tbusy ==> old(tbusy))
      ensures var todo := Line(old(txq), baudrate).Handles(reports);
              && handled == |todo|
              && txq == AfterEvents(old(txq), todo)
              && |transmitted| == old(|transmitted|) + Completions(todo)
              && (EndsSending(todo) && txq.len == 0 ==>
                    (Reg(chip.regs, 0, MISC) == 0 <==> BankAfter(old(txq), todo[..|todo| - 1]) == 0))
      ensures chip.mcr.bank == old(chip.mcr.bank)
      ensures old(baudrate) <= 115200 ==> handled == 0
      ensures old(baudrate) > 115200 && reports != [] && reports[0].msr / 2 % 8 == 7 && old(txq.len) > 0 ==>
                |transmitted| > old(|transmitted|)
      ensures old(baudrate) > 115200 && reports != [] && reports[0].msr / 2 % 8 != 0 ==> handled > 0
    {
      hide Valid, Conserved, Transmitting, QueueOk, Queued, AfterEvents, BankAfter, Completions,
        EventBank, Reg, Started, Todo, Report.Id, Report.Event;
      ghost var q := txq;
      NoEvents(q);
      NothingRead(q, reports);
      if baudrate <= 115200 {
        return 0;
      }
      ghost var n := if |reports| <= MAX_EVENTS then |reports| else MAX_EVENTS;
      ghost var todo, done: seq<Event>, before: seq<Event> := Todo(q, reports, n), [], [];
      var bank := SelectBank(0);
      var bogus := 0;
      handled := 0;
      while handled < |reports|
        invariant handled == bogus <= 11 && handled <= n
        invariant done == Todo(q, reports, handled) && |done| == handled
        invariant Valid() && (tbusy ==> old(tbusy))
        invariant txq == AfterEvents(q, done)
        invariant |transmitted| == old(|transmitted|) + Completions(done)
        invariant chip.mcr.bank == BankAfter(q, done)
        invariant handled > 0 ==> before == done[..handled - 1]
        invariant handled > 0 && done[handled - 1] == TxCond(false) && txq.len == 0 ==>
                    (Reg(chip.regs, 0, MISC) == 0 <==> BankAfter(q, before) == 0)
        invariant Completions(todo) - Completions(done) <= txq.len
        decreases |reports| - handled
      {
        NextReport(q, reports, handled, n);
        if reports[handled].Id(chip.mcr.bank) == 0 {
          break;
        }
        var e := reports[handled].Event(chip.mcr.bank);
        NextEvent(q, todo, done, e);
        HandleEvent(e);
        before, done := done, done + [e];
        handled := handled + 1;
        if bogus > 10 {
          break;
        }
        bogus := bogus + 1;
      }
      assert done == todo;
      FirstIsCounted(q, reports);
      var _ := SelectBank(bank);
    }

    /** Deals with one event. */
    method HandleEvent(e: Event)
      requires Valid() && (e.TxCond? ==> txq.len > 0)
      modifies chip, this`txq, this`tbusy, this`started, this`transmitted
      ensures Valid() && (tbusy ==> old(tbusy))
      ensures txq == AfterEvent(old(txq), e)
      ensures |transmitted| == old(|transmitted|) + if e.TxCond? then 1 else 0
      ensures chip.mcr.bank == EventBank(e, txq.len, old(chip.mcr.bank))
      ensures e == TxCond(false) && txq.len == 0 ==> (Reg(chip.regs, 0, MISC) == 0 <==> old(chip.mcr.bank) == 0)
    {
      hide Valid, Conserved, Transmitting, QueueOk, Reg, Started;
      match e {
        case TxCond(txqueueEmpty) => XmitComplete(txqueueEmpty);
        case RxCond(overrun) => ReceiveComplete(overrun);
        case Other =>
      }
    }

    /** Selecting a bank disturbs nothing that is being sent. */
    method SelectBank(bank: nat) returns (oldBank: nat)
      requires Valid()
      modifies chip`mcr
      ensures Valid()
      ensures oldBank == old(chip.mcr.bank) && chip.mcr == old(chip.mcr).(bank := bank)
    {
      oldBank := chip.SwitchBank(bank);
    }

    /**
     Changes speed. Above 115200 baud this resets the transmit queue: frames that are waiting are
     lost exactly then. The resets that should prepare reception are always given in bank 2, where
     they are not commands.
     */
    method ChangeSpeed(speed: nat)
      requires Valid()
      modifies chip, this`txq, this`tbusy, this`baudrate
      ensures QueueOk(txq) && !tbusy && baudrate == speed
      ensures Conserved() <==> speed <= 115200 || old(txq.len) == 0
      ensures old(txq.len) == 0 ==> Valid()
      ensures txq == if speed > 115200 then Reset(old(txq)) else old(txq)
      ensures chip.resets == old(chip.resets) + [RESET_ALL]
    {
      hide QueueOk, Pending, Reg;
      ghost var waiting := Queued();
      Waiting();
      baudrate := speed;
      chip.SelectSpeed(speed);
      tbusy := false;
      if speed > 115200 {
        Receive();
      }
    }

    lemma Waiting()
      requires Conserved()
      ensures |txq.queue| == MAX_WINDOW && (Queued() == [] <==> txq.len == 0)
    {
    }

    /** One operation. */
    method Perform(op: Op)
      requires Valid() && !tbusy && Possible(Line(txq, baudrate), op)
      modifies this, chip, chip.shm
      ensures Valid() && !tbusy
      ensures Line(txq, baudrate) == After(old(Line(txq, baudrate)), op)
      ensures accepted == old(accepted) + if op.Xmit? then [op.frame] else []
      ensures |transmitted| == old(|transmitted|) + SentBy(old(Line(txq, baudrate)), op)
    {
      hide Valid, Conserved, Transmitting, Queued, QueueOk, Started, AfterEvents, Completions;
      match op
      case Xmit(frame) =>
        QueueSize();
        var _ := HardXmit(frame);
      case Irq(reports) => var _ := Interrupt(reports);
      case Speed(speed) => ChangeSpeed(speed);
    }

    lemma QueueSize()
      requires Valid()
      ensures |txq.queue| == MAX_WINDOW
    {
    }

    /**
     Every run of operations that are possible in turn conserves the frames: exactly the frames of
     the run are accepted, in order, exactly those that were completed have been sent, and the rest
     is in shared memory. The chip has been told about the frames sent and at most one more.
     */
    method Run(ops: seq<Op>)
      requires Valid() && !tbusy && AllPossible(Line(txq, baudrate), ops)
      modifies this, chip, chip.shm
      ensures Valid() && !tbusy
      ensures Line(txq, baudrate) == AfterAll(old(Line(txq, baudrate)), ops)
      ensures accepted == old(accepted) + FramesOf(ops) == transmitted + Queued()
      ensures |transmitted| == old(|transmitted|) + Sent(old(Line(txq, baudrate)), ops)
      ensures |transmitted| <= |started| <= |transmitted| + 1 && started <= accepted
    {
      hide Valid, QueueOk, Possible, After, SentBy;
      ghost var all, taken, line := FramesOf(ops), accepted, Line(txq, baudrate);
      ghost var sent := |transmitted| + Sent(line, ops);
      assert ops[0..] == ops;
      for k := 0 to |ops|
        invariant Valid() && !tbusy && AllPossible(Line(txq, baudrate), ops[k..])
        invariant AfterAll(line, ops) == AfterAll(Line(txq, baudrate), ops[k..])
        invariant accepted + FramesOf(ops[k..]) == taken + all
        invariant |transmitted| + Sent(Line(txq, baudrate), ops[k..]) == sent
      {
        assert ops[k..][0] == ops[k] && ops[k..][1..] == ops[k + 1..];
        Associative(accepted, if ops[k].Xmit? then [ops[k].frame] else [], FramesOf(ops[k + 1..]));
        Perform(ops[k]);
      }
      Balance();
    }

    lemma Balance()
      requires Valid()
      ensures accepted == transmitted + Queued()
      ensures |transmitted| <= |started| <= |transmitted| + 1 && started <= accepted
    {
    }
  }

  /** A new driver sends any number of windows: exactly their frames, in order. */
  method SendWindows(windows: seq<seq<seq<byte>>>) returns (d: Driver)
    requires forall k :: 0 <= k < |windows| ==> IsWindow(windows[k])
    ensures fresh(d) && d.Valid() && d.accepted == d.transmitted == AllFrames(windows)
  {
    hide Driver.Valid, Driver.Queued, Driver.Conserved, QueueOk, AllPossible, AfterAll, FramesOf, Sent, IsWindow;
    d := new Driver();
    d.ChangeSpeed(4_000_000);
    assert d.accepted == d.transmitted == [];
    WindowsPossible(Line(d.txq, d.baudrate), windows);
    d.Run(Rounds(windows));
    assert |d.transmitted| == |d.accepted|;
  }

  lemma FirstFrame(q: ShmQueue)
    requires q.len == 0 && |q.queue| == MAX_WINDOW
    ensures Fits(Reset(q), [1]) && Push(Reset(q), 1).len == 1
  {
  }

  /** Ten receptions that are overrun, one that is not, and then whatever the frame address register says. */
  function Late(frameAddr: byte): seq<Report> {
    Overruns(frameAddr, 10) + [Report(MSR_RX_COND_ID, frameAddr, false, false), Report(0, frameAddr, false, false)]
  }

  function Overruns(frameAddr: byte, n: nat): (r: seq<Report>)
    ensures |r| == n && forall k :: 0 <= k < n ==> r[k] == Report(MSR_RX_COND_ID, frameAddr, false, true)
  {
    if n == 0 then [] else Overruns(frameAddr, n - 1) + [Report(MSR_RX_COND_ID, frameAddr, false, true)]
  }

  lemma {:induction false} OverrunsRead(q: ShmQueue, reports: seq<Report>, n: nat)
    requires n <= |reports| && forall k :: 0 <= k < n ==> reports[k].msr == MSR_RX_COND_ID && reports[k].overrun
    ensures var todo := Todo(q, reports, n);
            |todo| == n && AfterEvents(q, todo) == q && BankAfter(q, todo) == 0 && Completions(todo) == 0
  {
    hide AfterEvents, BankAfter, Completions;
    NoEvents(q);
    if n > 0 {
      OverrunsRead(q, reports, n - 1);
      OneMoreOverrun(q, reports[n - 1], Todo(q, reports, n - 1));
    }
  }

  lemma OneMoreOverrun(q: ShmQueue, r: Report, done: seq<Event>)
    requires r.msr == MSR_RX_COND_ID && r.overrun
    ensures r.Id(0) != 0 && r.Event(0) == RxCond(true)
    ensures var more := done + [RxCond(true)];
            && AfterEvents(q, more) == AfterEvents(q, done) && BankAfter(q, more) == 0
            && Completions(more) == Completions(done)
  {
    assert r.Id(0) == MSR_RX_COND_ID;
    NextEvent(q, done + [RxCond(true)], done, RxCond(true));
  }

  predicate SaysCompletion(frameAddr: byte) { frameAddr / 2 % 8 * 2 == MSR_TX_COND_ID }

  lemma LateIsRead(q: ShmQueue, frameAddr: byte)
    requires q.len == 1
    ensures var todo := Handled(q, Late(frameAddr));
            && Completions(todo) == (if SaysCompletion(frameAddr) then 1 else 0)
            && AfterEvents(q, todo).len == (if SaysCompletion(frameAddr) then 0 else 1)
            && (SaysCompletion(frameAddr) ==> EndsSending(todo) && BankAfter(q, todo[..|todo| - 1]) == 1)
  {
    var reports := Late(frameAddr);
    OverrunsRead(q, reports, 10);
    var ten := Todo(q, reports, 10);
    assert reports[10].Id(0) == MSR_RX_COND_ID;
    var eleven := ten + [RxCond(false)];
    assert Todo(q, reports, 11) == eleven;
    hide AfterEvents, BankAfter, Completions, Late;
    NextEvent(q, eleven, ten, RxCond(false));
    var id, e := reports[11].Id(1), reports[11].Event(1);
    assert Handled(q, reports) == if id == 0 then eleven else eleven + [e];
    NextEvent(q, eleven + [e], eleven, e);
  }

  /**
   A frame on its way, and an interrupt that sees receptions and then asks for the next event in bank
   1: the frame counts as sent, with DMA still on, if and only if the frame address register happens to
   say so, and otherwise it does not count yet.
   */
  method DmaStaysOn(frameAddr: byte) returns (d: Driver)
    ensures fresh(d) && d.Valid() && d.accepted == [[1]]
    ensures d.transmitted == [[1]] <==> SaysCompletion(frameAddr)
    ensures SaysCompletion(frameAddr) <==> d.txq.len == 0 && Reg(d.chip.regs, 0, MISC) != 0
  {
    hide Driver.Valid, Driver.Queued, Driver.Conserved, Reset, Push, Fits, QueueOk,
      Completions, AfterEvents, BankAfter, EndsSending, Reg, Started, Handled, Late;
    d := new Driver();
    FirstFrame(d.txq);
    d.ChangeSpeed(4_000_000);
    assert d.accepted == [];
    var _ := d.HardXmit([1]);
    LateIsRead(d.txq, frameAddr);
    var _ := d.Interrupt(Late(frameAddr));
    d.Balance();
    assert d.accepted == [[1]];
  }
}
