/** machine/translate.cc and the unaligned loads and stores of machine/mipssim.cc (the SIM_FIX build, on a
    little-endian host): address translation, LWL, LWR, SWL, SWR and the delayed load. */
module MipsMemory {
  import opened Bytes

  const PAGE_SIZE := 128
  const NUM_PHYS_PAGES := 128
  const MEMORY_SIZE := NUM_PHYS_PAGES * PAGE_SIZE
  const TLB_SIZE := 4
  const NUM_GP_REGS := 32
  const ADDRESSES := 0x1_0000_0000

  datatype ExceptionType = NoException | PageFaultException | ReadOnlyException | BusErrorException
      | AddressErrorException

  datatype TranslationEntry = TranslationEntry(
    virtualPage: int, physicalPage: int, valid: bool, readOnly: bool, use: bool, dirty: bool)

  /** Either a linear page table or a TLB, never both. */
  datatype Tables = PageTable(entries: seq<TranslationEntry>) | Tlb(entries: seq<TranslationEntry>)

  type Register = r: nat | r < NUM_GP_REGS

  // ---------------------------------------------------------------------
  // Words and their bytes
  // ---------------------------------------------------------------------

  function ByteOf(w: bv32, i: nat): (b: bv8)
    requires i < 4
  {
    if i == 0 then (w & 0xff) as bv8
    else if i == 1 then ((w >> 8) & 0xff) as bv8
    else if i == 2 then ((w >> 16) & 0xff) as bv8
    else ((w >> 24) & 0xff) as bv8
  }

  function Join(b0: bv8, b1: bv8, b2: bv8, b3: bv8): (w: bv32) {
    (b0 as bv32) | ((b1 as bv32) << 8) | ((b2 as bv32) << 16) | ((b3 as bv32) << 24)
  }

  lemma BytesOfJoin(b0: bv8, b1: bv8, b2: bv8, b3: bv8)
    ensures var w := Join(b0, b1, b2, b3);
            ByteOf(w, 0) == b0 && ByteOf(w, 1) == b1 && ByteOf(w, 2) == b2 && ByteOf(w, 3) == b3
  {
  }

  lemma JoinOfBytes(w: bv32)
    ensures Join(ByteOf(w, 0), ByteOf(w, 1), ByteOf(w, 2), ByteOf(w, 3)) == w
  {
  }

  // ---------------------------------------------------------------------
  // The source's merges, one per case of `switch (3 - byte)`
  // ---------------------------------------------------------------------

  // The mask-and-shift expressions of the source: some bytes of `x`, the rest from `y`.

  function KeepLow1(x: bv32, y: bv32): (r: bv32) {
    (x & 0xff) | (y << 8)
  }

  function KeepLow2(x: bv32, y: bv32): (r: bv32) {
    (x & 0xffff) | (y << 16)
  }

  function KeepLow3(x: bv32, y: bv32): (r: bv32) {
    (x & 0xffffff) | (y << 24)
  }

  function KeepHigh1(x: bv32, y: bv32): (r: bv32) {
    (x & 0xff000000) | ((y >> 8) & 0xffffff)
  }

  function KeepHigh2(x: bv32, y: bv32): (r: bv32) {
    (x & 0xffff0000) | ((y >> 16) & 0xffff)
  }

  function KeepHigh3(x: bv32, y: bv32): (r: bv32) {
    (x & 0xffffff00) | ((y >> 24) & 0xff)
  }

  function LwlMerge(byte_: nat, reg: bv32, value: bv32): (r: bv32)
    requires byte_ < 4
  {
    match 3 - byte_
    case 0 => value
    case 1 => KeepLow1(reg, value)
    case 2 => KeepLow2(reg, value)
    case _ => KeepLow3(reg, value)
  }

  function LwrMerge(byte_: nat, reg: bv32, value: bv32): (r: bv32)
    requires byte_ < 4
  {
    match 3 - byte_
    case 0 => KeepHigh3(reg, value)
    case 1 => KeepHigh2(reg, value)
    case 2 => KeepHigh1(reg, value)
    case _ => value
  }

  function SwlMerge(byte_: nat, value: bv32, reg: bv32): (r: bv32)
    requires byte_ < 4
  {
    match 3 - byte_
    case 0 => reg
    case 1 => KeepHigh1(value, reg)
    case 2 => KeepHigh2(value, reg)
    case _ => KeepHigh3(value, reg)
  }

  function SwrMerge(byte_: nat, value: bv32, reg: bv32): (r: bv32)
    requires byte_ < 4
  {
    match 3 - byte_
    case 0 => KeepLow3(value, reg)
    case 1 => KeepLow2(value, reg)
    case 2 => KeepLow1(value, reg)
    case _ => reg
  }

  /** LWL at byte `b` of a word: memory bytes 0..b become the top bytes of the register. */
  function WithLeft(b: nat, reg: bv32, m: seq<bv8>): (w: bv32)
    requires b < 4 && |m| == 4
  {
    Join(if b == 3 then m[0] else ByteOf(reg, 0),
         if b >= 2 then m[b - 2] else ByteOf(reg, 1),
         if b >= 1 then m[b - 1] else ByteOf(reg, 2),
         m[b])
  }

  /** LWR at byte `b`: memory bytes b..3 become the bottom bytes of the register. */
  function WithRight(b: nat, reg: bv32, m: seq<bv8>): (w: bv32)
    requires b < 4 && |m| == 4
  {
    Join(m[b],
         if b <= 2 then m[b + 1] else ByteOf(reg, 1),
         if b <= 1 then m[b + 2] else ByteOf(reg, 2),
         if b == 0 then m[3] else ByteOf(reg, 3))
  }

  /** SWL at byte `b`: the top bytes of the register go to memory bytes 0..b. */
  function LeftStored(b: nat, m: seq<bv8>, reg: bv32): (m': seq<bv8>)
    requires b < 4 && |m| == 4
    ensures |m'| == 4
  {
    seq(4, i requires 0 <= i < 4 => if i <= b then ByteOf(reg, i + 3 - b) else m[i])
  }

  /** SWR at byte `b`: the bottom bytes of the register go to memory bytes b..3. */
  function RightStored(b: nat, m: seq<bv8>, reg: bv32): (m': seq<bv8>)
    requires b < 4 && |m| == 4
    ensures |m'| == 4
  {
    seq(4, i requires 0 <= i < 4 => if i >= b then ByteOf(reg, i - b) else m[i])
  }

  function Word(m: seq<bv8>): (w: bv32)
    requires |m| == 4
  {
    Join(m[0], m[1], m[2], m[3])
  }

  function WordBytes(w: bv32): (m: seq<bv8>)
    ensures |m| == 4
  {
    [ByteOf(w, 0), ByteOf(w, 1), ByteOf(w, 2), ByteOf(w, 3)]
  }

  lemma LowKept1(x: bv32, y: bv32)
    ensures KeepLow1(x, y) == Join(ByteOf(x, 0), ByteOf(y, 0), ByteOf(y, 1), ByteOf(y, 2))
  {
  }

  lemma LowKept2(x: bv32, y: bv32)
    ensures KeepLow2(x, y) == Join(ByteOf(x, 0), ByteOf(x, 1), ByteOf(y, 0), ByteOf(y, 1))
  {
  }

  lemma LowKept3(x: bv32, y: bv32)
    ensures KeepLow3(x, y) == Join(ByteOf(x, 0), ByteOf(x, 1), ByteOf(x, 2), ByteOf(y, 0))
  {
  }

  lemma HighKept1(x: bv32, y: bv32)
    ensures KeepHigh1(x, y) == Join(ByteOf(y, 1), ByteOf(y, 2), ByteOf(y, 3), ByteOf(x, 3))
  {
  }

  lemma HighKept2(x: bv32, y: bv32)
    ensures KeepHigh2(x, y) == Join(ByteOf(y, 2), ByteOf(y, 3), ByteOf(x, 2), ByteOf(x, 3))
  {
  }

  lemma HighKept3(x: bv32, y: bv32)
    ensures KeepHigh3(x, y) == Join(ByteOf(y, 3), ByteOf(x, 1), ByteOf(x, 2), ByteOf(x, 3))
  {
  }

  lemma BytesOfWord(m: seq<bv8>)
    requires |m| == 4
    ensures WordBytes(Word(m)) == m
  {
    BytesOfJoin(m[0], m[1], m[2], m[3]);
  }

  lemma LwlMeaning(b: nat, reg: bv32, m: seq<bv8>)
    requires b < 4 && |m| == 4
    ensures LwlMerge(b, reg, Word(m)) == WithLeft(b, reg, m)
  {
    hide ByteOf;
    hide Join;
    hide KeepLow1;
    hide KeepLow2;
    hide KeepLow3;
    hide KeepHigh1;
    hide KeepHigh2;
    hide KeepHigh3;
    BytesOfWord(m);
    LowKept1(reg, Word(m));
    LowKept2(reg, Word(m));
    LowKept3(reg, Word(m));
  }

  lemma LwrMeaning(b: nat, reg: bv32, m: seq<bv8>)
    requires b < 4 && |m| == 4
    ensures LwrMerge(b, reg, Word(m)) == WithRight(b, reg, m)
  {
    hide ByteOf;
    hide Join;
    hide KeepLow1;
    hide KeepLow2;
    hide KeepLow3;
    hide KeepHigh1;
    hide KeepHigh2;
    hide KeepHigh3;
    BytesOfWord(m);
    HighKept1(reg, Word(m));
    HighKept2(reg, Word(m));
    HighKept3(reg, Word(m));
  }

  lemma SwlMeaning(b: nat, m: seq<bv8>, reg: bv32)
    requires b < 4 && |m| == 4
    ensures WordBytes(SwlMerge(b, Word(m), reg)) == LeftStored(b, m, reg)
  {
    hide ByteOf;
    hide Join;
    hide KeepLow1;
    hide KeepLow2;
    hide KeepLow3;
    hide KeepHigh1;
    hide KeepHigh2;
    hide KeepHigh3;
    BytesOfWord(m);
    HighKept1(Word(m), reg);
    HighKept2(Word(m), reg);
    HighKept3(Word(m), reg);
    var w := LeftStored(b, m, reg);
    BytesOfWord(w);
    JoinOfBytes(reg);
  }

  lemma SwrMeaning(b: nat, m: seq<bv8>, reg: bv32)
    requires b < 4 && |m| == 4
    ensures WordBytes(SwrMerge(b, Word(m), reg)) == RightStored(b, m, reg)
  {
    hide ByteOf;
    hide Join;
    hide KeepLow1;
    hide KeepLow2;
    hide KeepLow3;
    hide KeepHigh1;
    hide KeepHigh2;
    hide KeepHigh3;
    BytesOfWord(m);
    LowKept1(Word(m), reg);
    LowKept2(Word(m), reg);
    LowKept3(Word(m), reg);
    var w := RightStored(b, m, reg);
    BytesOfWord(w);
    JoinOfBytes(reg);
  }

  // ---------------------------------------------------------------------
  // Address translation
  // ---------------------------------------------------------------------

  datatype Lookup = Found(i: nat) | Missing(e: ExceptionType)

  function FirstMatch(es: seq<TranslationEntry>, vpn: nat, i: nat): (r: Lookup)
    requires i <= |es|
    ensures r.Found? ==> r.i < |es| && es[r.i].valid && es[r.i].virtualPage == vpn
                         && forall k | i <= k < r.i :: !(es[k].valid && es[k].virtualPage == vpn)
    ensures r.Missing? ==> r.e == PageFaultException && forall k | i <= k < |es| ::
        !(es[k].valid && es[k].virtualPage == vpn)
    decreases |es| - i
  {
    if i == |es| then Missing(PageFaultException)
    else if es[i].valid && es[i].virtualPage == vpn then Found(i)
    else FirstMatch(es, vpn, i + 1)
  }

  function LookUp(t: Tables, vpn: nat): (r: Lookup)
    ensures r.Found? ==> r.i < |t.entries| && t.entries[r.i].valid
  {
    match t
    case PageTable(es) =>
      if vpn >= |es| then Missing(AddressErrorException)
      else if !es[vpn].valid then Missing(PageFaultException)
      else Found(vpn)
    case Tlb(es) => FirstMatch(es, vpn, 0)
  }

  datatype Access = Denied(e: ExceptionType) | Granted(phys: nat, tables: Tables)

  /** Setting the use bit of entry `i`, and the dirty bit when writing. */
  function Touch(t: Tables, i: nat, writing: bool): (t': Tables)
    requires i < |t.entries|
  {
    t.(entries := t.entries[i := t.entries[i].(use := true, dirty := t.entries[i].dirty || writing)])
  }

  /** What Translate answers. */
  function Translation(t: Tables, addr: nat, size: nat, writing: bool): (r: Access) {
    if (size == 4 && addr % 4 != 0) || (size == 2 && addr % 2 != 0) then Denied(AddressErrorException)
    else
      match LookUp(t, addr / PAGE_SIZE)
      case Missing(e) => Denied(e)
      case Found(i) =>
        var en := t.entries[i];
        if en.readOnly && writing then Denied(ReadOnlyException)
        else if !(0 <= en.physicalPage < NUM_PHYS_PAGES) then Denied(BusErrorException)
        else Granted(en.physicalPage * PAGE_SIZE + addr % PAGE_SIZE, Touch(t, i, writing))
  }

  /** Entry `i` is the one for the virtual page: in a page table the page's own, in a TLB the first valid match. */
  ghost predicate EntryFor(t: Tables, vpn: nat, i: int) {
    && 0 <= i < |t.entries| && t.entries[i].valid
    && (t.PageTable? ==> i == vpn)
    && (t.Tlb? ==> t.entries[i].virtualPage == vpn
                   && forall k | 0 <= k < i :: !(t.entries[k].valid && t.entries[k].virtualPage == vpn))
  }

  /** Of all entries only the use bit of entry `i` has been set, and its dirty bit if `writing`. */
  ghost predicate OnlyTouched(t: Tables, i: int, writing: bool, t': Tables) {
    && (t'.Tlb? <==> t.Tlb?) && 0 <= i < |t.entries| == |t'.entries|
    && (forall k | 0 <= k < |t.entries| && k != i :: t'.entries[k] == t.entries[k])
    && var en, en' := t.entries[i], t'.entries[i];
       && en'.virtualPage == en.virtualPage && en'.physicalPage == en.physicalPage
       && en'.valid == en.valid && en'.readOnly == en.readOnly
       && en'.use && (en'.dirty <==> en.dirty || writing)
  }

  lemma LookUpIs(t: Tables, vpn: nat)
    ensures match LookUp(t, vpn)
            case Found(i) => forall j :: EntryFor(t, vpn, j) <==> j == i
            case Missing(e) =>
              && (forall j :: !EntryFor(t, vpn, j))
              && e == if t.PageTable? && vpn >= |t.entries| then AddressErrorException else PageFaultException
  {
  }

  /** An access is granted exactly if the address is aligned, there is an entry for the page, the page is not written
      while read-only, and the entry's frame exists. It goes to that frame at the same offset. */
  lemma GrantedIff(t: Tables, addr: nat, size: nat, writing: bool)
    requires size == 1 || size == 2 || size == 4
    ensures Translation(t, addr, size, writing).Granted? <==>
              && addr % size == 0
              && exists i :: EntryFor(t, addr / PAGE_SIZE, i) && !(t.entries[i].readOnly && writing)
                             && 0 <= t.entries[i].physicalPage < NUM_PHYS_PAGES
    ensures var r := Translation(t, addr, size, writing);
            forall i | EntryFor(t, addr / PAGE_SIZE, i) && r.Granted? ::
              && r.phys / PAGE_SIZE == t.entries[i].physicalPage && r.phys % PAGE_SIZE == addr % PAGE_SIZE
              && OnlyTouched(t, i, writing, r.tables)
  {
    LookUpIs(t, addr / PAGE_SIZE);
    hide LookUp;
    match LookUp(t, addr / PAGE_SIZE) {
      case Missing(_) =>
      case Found(i) =>
        assert EntryFor(t, addr / PAGE_SIZE, i);
        if Translation(t, addr, size, writing).Granted? {
          InFrame(t.entries[i].physicalPage, addr, size);
        }
    }
  }

  /** Which exception a refused access gives: the first condition that fails, in this order. */
  lemma DeniedBecause(t: Tables, addr: nat, size: nat, writing: bool)
    requires size == 1 || size == 2 || size == 4
    requires Translation(t, addr, size, writing).Denied?
    ensures var e, vpn := Translation(t, addr, size, writing).e, addr / PAGE_SIZE;
            && (e == AddressErrorException <==> addr % size != 0 || (t.PageTable? && vpn >= |t.entries|))
            && (e == PageFaultException <==>
                  addr % size == 0 && !(t.PageTable? && vpn >= |t.entries|) && forall i :: !EntryFor(t, vpn, i))
            && (e == ReadOnlyException <==>
                  addr % size == 0 && writing && exists i :: EntryFor(t, vpn, i) && t.entries[i].readOnly)
            && (e == BusErrorException <==>
                  addr % size == 0 && exists i :: EntryFor(t, vpn, i) && !(t.entries[i].readOnly && writing)
                                                  && !(0 <= t.entries[i].physicalPage < NUM_PHYS_PAGES))
  {
    LookUpIs(t, addr / PAGE_SIZE);
    hide LookUp;
    match LookUp(t, addr / PAGE_SIZE) {
      case Missing(_) =>
      case Found(i) => assert EntryFor(t, addr / PAGE_SIZE, i);
    }
  }

  /** A granted access keeps the offset in the page and stays inside one page frame of real memory. */
  lemma AccessWithinFrame(t: Tables, addr: nat, size: nat, writing: bool)
    requires size == 1 || size == 2 || size == 4
    requires Translation(t, addr, size, writing).Granted?
    ensures var p := Translation(t, addr, size, writing).phys;
            && p % PAGE_SIZE == addr % PAGE_SIZE
            && p / PAGE_SIZE == (p + size - 1) / PAGE_SIZE < NUM_PHYS_PAGES
            && p + size <= MEMORY_SIZE
            && p % size == 0
  {
    hide LookUp;
    var i := LookUp(t, addr / PAGE_SIZE).i;
    InFrame(t.entries[i].physicalPage, addr, size);
  }

  lemma InFrame(frame: nat, addr: nat, size: nat)
    requires frame < NUM_PHYS_PAGES && (size == 1 || size == 2 || size == 4)
    requires (size == 4 ==> addr % 4 == 0) && (size == 2 ==> addr % 2 == 0)
    ensures var p := frame * PAGE_SIZE + addr % PAGE_SIZE;
            && p % PAGE_SIZE == addr % PAGE_SIZE
            && p / PAGE_SIZE == (p + size - 1) / PAGE_SIZE == frame
            && p + size <= MEMORY_SIZE
            && (size == 4 ==> p % 4 == 0) && (size == 2 ==> p % 2 == 0)
  {
  }

  /** Two tables that differ in use and dirty bits only. */
  ghost predicate SameMapping(t: Tables, t': Tables) {
    && (t.Tlb? <==> t'.Tlb?)
    && |t.entries| == |t'.entries|
    && forall i | 0 <= i < |t.entries| ::
         t'.entries[i] == t.entries[i].(use := t'.entries[i].use, dirty := t'.entries[i].dirty)
  }

  lemma {:induction false} SameFirstMatch(es: seq<TranslationEntry>, es': seq<TranslationEntry>, vpn: nat, i: nat)
    requires |es| == |es'| && i <= |es|
    requires forall k | 0 <= k < |es| :: es'[k] == es[k].(use := es'[k].use, dirty := es'[k].dirty)
    ensures FirstMatch(es', vpn, i) == FirstMatch(es, vpn, i)
    decreases |es| - i
  {
    if i < |es| {
      SameFirstMatch(es, es', vpn, i + 1);
    }
  }

  /** Use and dirty bits do not influence translation, and translation changes nothing else. */
  lemma SameTranslation(t: Tables, t': Tables, addr: nat, size: nat, writing: bool)
    requires SameMapping(t, t')
    ensures var r, r' := Translation(t, addr, size, writing), Translation(t', addr, size, writing);
            match r
            case Denied(_) => r' == r
            case Granted(p, _) => r'.Granted? && r'.phys == p && SameMapping(t, r'.tables)
  {
    if t.Tlb? {
      SameFirstMatch(t.entries, t'.entries, addr / PAGE_SIZE, 0);
    }
  }

  /** What may be written may be read, at the same place. */
  lemma WritableIsReadable(t: Tables, addr: nat, size: nat)
    requires Translation(t, addr, size, true).Granted?
    ensures Translation(t, addr, size, false).Granted?
    ensures Translation(t, addr, size, false).phys == Translation(t, addr, size, true).phys
  {
  }

  // ---------------------------------------------------------------------
  // The machine state, and the four instructions on it
  // ---------------------------------------------------------------------

  /** The general registers, the pending delayed load (LoadReg, LoadValueReg), memory and tables. */
  datatype Cpu = Cpu(regs: seq<bv32>, loadReg: Register, loadValue: bv32, mem: seq<bv8>, tables: Tables) {
    ghost predicate Ok() {
      && |regs| == NUM_GP_REGS && regs[0] == 0 && |mem| == MEMORY_SIZE
      && (tables.Tlb? ==> |tables.entries| == TLB_SIZE)
    }
  }

  datatype Opcode = LWL | LWR | SWL | SWR

  /** Commit the pending load and make (nextReg, nextValue) the pending one; register 0 stays zero. */
  function Commit(c: Cpu, nextReg: Register, nextValue: bv32): (c': Cpu)
    requires |c.regs| == NUM_GP_REGS
    ensures |c'.regs| == NUM_GP_REGS && c'.regs[0] == 0
  {
    c.(regs := c.regs[c.loadReg := c.loadValue][0 := 0], loadReg := nextReg, loadValue := nextValue)
  }

  /** What that means for each register. */
  lemma CommitIs(c: Cpu, nextReg: Register, nextValue: bv32, r: Register)
    requires |c.regs| == NUM_GP_REGS
    ensures var c' := Commit(c, nextReg, nextValue);
            && c'.regs[r] == (if r == 0 then 0 else if r == c.loadReg then c.loadValue else c.regs[r])
            && c'.loadReg == nextReg && c'.loadValue == nextValue && c'.mem == c.mem && c'.tables == c.tables
  {
  }

  /** The register's value as LWL and LWR see it: a load still pending to it is bypassed. */
  function Bypassed(c: Cpu, rt: Register): (w: bv32)
    requires |c.regs| == NUM_GP_REGS
  {
    if c.loadReg == rt then c.loadValue else c.regs[rt]
  }

  datatype Outcome = Trap(e: ExceptionType, cpu: Cpu) | Done(cpu: Cpu)

  /** A word as an address. */
  function Address(w: bv32): (addr: nat)
    ensures addr < ADDRESSES
  {
    w as nat
  }

  /** The write at the end of SWL and SWR. */
  function Store(c: Cpu, addr: nat, m: seq<bv8>): (r: Outcome)
    requires c.Ok() && |m| == 4
  {
    match Translation(c.tables, addr, 4, true)
    case Denied(e) => Trap(e, Commit(c, 0, 0))
    case Granted(p, t) =>
      AccessWithinFrame(c.tables, addr, 4, true);
      Done(Commit(c.(tables := t, mem := Splice(c.mem, p, m)), 0, 0))
  }

  /** One instruction with effective address `addr`; byte by byte, where the source uses masks and shifts. */
  function Execute(c: Cpu, op: Opcode, rt: Register, addr: nat): (r: Outcome)
    requires c.Ok()
  {
    var b := addr % 4;
    match Translation(c.tables, addr - b, 4, false)
    case Denied(e) => Trap(e, Commit(c, 0, 0))
    case Granted(p, t1) =>
      AccessWithinFrame(c.tables, addr - b, 4, false);
      var m, c1 := c.mem[p..p + 4], c.(tables := t1);
      match op
      case LWL => Done(Commit(c1, rt, WithLeft(b, Bypassed(c, rt), m)))
      case LWR => Done(Commit(c1, rt, WithRight(b, Bypassed(c, rt), m)))
      case SWL => Store(c1, addr - b, LeftStored(b, m, c.regs[rt]))
      case SWR => Store(c1, addr - b, RightStored(b, m, c.regs[rt]))
  }

  /** SWL and SWR with the masks and shifts, from the aligned word that was read. */
  lemma StoreCases(c: Cpu, op: Opcode, rt: Register, addr: nat)
    requires c.Ok() && (op == SWL || op == SWR)
    ensures var b := addr % 4;
            match Translation(c.tables, addr - b, 4, false)
            case Denied(e) => Execute(c, op, rt, addr) == Trap(e, Commit(c, 0, 0))
            case Granted(p, t) =>
              && p + 4 <= MEMORY_SIZE && c.(tables := t).Ok()
              && var w, reg := Word(c.mem[p..p + 4]), c.regs[rt];
                 var stored := if op == SWL then SwlMerge(b, w, reg) else SwrMerge(b, w, reg);
                 Execute(c, op, rt, addr) == Store(c.(tables := t), addr - b, WordBytes(stored))
  {
    hide ByteOf;
    hide Join;
    hide Store;
    hide Commit;
    hide Word;
    hide WordBytes;
    hide LeftStored;
    hide RightStored;
    hide SwlMerge;
    hide SwrMerge;
    hide LookUp;
    var b := addr % 4;
    match Translation(c.tables, addr - b, 4, false)
    case Denied(_) =>
    case Granted(p, _) =>
      AccessWithinFrame(c.tables, addr - b, 4, false);
      SwlMeaning(b, c.mem[p..p + 4], c.regs[rt]);
      SwrMeaning(b, c.mem[p..p + 4], c.regs[rt]);
  }

  // ---------------------------------------------------------------------
  // Each instruction by itself
  // ---------------------------------------------------------------------

  lemma LeftBytes(b: nat, reg: bv32, m: seq<bv8>)
    requires b < 4 && |m| == 4
    ensures forall k | 0 <= k < 4 ::
              ByteOf(WithLeft(b, reg, m), k) == if k >= 3 - b then m[k - (3 - b)] else ByteOf(reg, k)
  {
    hide ByteOf;
    hide Join;
    var b0, b1 := if b == 3 then m[0] else ByteOf(reg, 0), if b >= 2 then m[b - 2] else ByteOf(reg, 1);
    var b2, b3 := if b >= 1 then m[b - 1] else ByteOf(reg, 2), m[b];
    assert WithLeft(b, reg, m) == Join(b0, b1, b2, b3);
    hide WithLeft;
    BytesOfJoin(b0, b1, b2, b3);
  }

  lemma RightBytes(b: nat, reg: bv32, m: seq<bv8>)
    requires b < 4 && |m| == 4
    ensures forall k | 0 <= k < 4 ::
              ByteOf(WithRight(b, reg, m), k) == if k <= 3 - b then m[b + k] else ByteOf(reg, k)
  {
    hide ByteOf;
    hide Join;
    var b0, b1 := m[b], if b <= 2 then m[b + 1] else ByteOf(reg, 1);
    var b2, b3 := if b <= 1 then m[b + 2] else ByteOf(reg, 2), if b == 0 then m[3] else ByteOf(reg, 3);
    assert WithRight(b, reg, m) == Join(b0, b1, b2, b3);
    hide WithRight;
    BytesOfJoin(b0, b1, b2, b3);
  }

  /** The bypass gives what the register holds once the pending load commits. */
  lemma BypassedIs(c: Cpu, rt: Register)
    requires |c.regs| == NUM_GP_REGS && rt != 0
    ensures Bypassed(c, rt) == Commit(c, 0, 0).regs[rt]
  {
  }

  lemma LoadedValue(c: Cpu, op: Opcode, rt: Register, addr: nat, c': Cpu)
    requires c.Ok() && (op == LWL || op == LWR) && Execute(c, op, rt, addr) == Done(c')
    ensures c'.mem == c.mem && c'.loadReg == rt && c'.regs == Commit(c, 0, 0).regs
    ensures var b, read := addr % 4, Translation(c.tables, addr - addr % 4, 4, false);
            && read.Granted? && read.phys + 4 <= MEMORY_SIZE && c'.tables == read.tables
            && var m := c.mem[read.phys..read.phys + 4];
               c'.loadValue == if op == LWL then WithLeft(b, Bypassed(c, rt), m) else WithRight(b, Bypassed(c, rt), m)
  {
    hide WithLeft;
    hide WithRight;
    hide Bypassed;
    hide LookUp;
    AccessWithinFrame(c.tables, addr - addr % 4, 4, false);
  }

  /** What LWL or LWR leaves in a register, once it commits: the bytes it loads come from memory, and the others are
      those that the register would have had without it, a load pending to the register included. */
  lemma LoadMeaning(c: Cpu, op: Opcode, rt: Register, addr: nat, c': Cpu)
    requires c.Ok() && (op == LWL || op == LWR) && Execute(c, op, rt, addr) == Done(c')
    ensures c'.mem == c.mem && c'.loadReg == rt && c'.regs == Commit(c, 0, 0).regs
    ensures var b, read := addr % 4, Translation(c.tables, addr - addr % 4, 4, false);
            var before, after := Commit(c, 0, 0).regs, Commit(c', 0, 0).regs;
            && read.Granted? && read.phys + 4 <= MEMORY_SIZE && c'.tables == read.tables
            && (forall r: Register | r != rt || rt == 0 :: after[r] == before[r])
            && (rt != 0 ==> forall k | 0 <= k < 4 ::
                  ByteOf(after[rt], k) ==
                  if op == LWL then (if k >= 3 - b then c.mem[read.phys + k - (3 - b)] else ByteOf(before[rt], k))
                  else if k <= 3 - b then c.mem[read.phys + b + k] else ByteOf(before[rt], k))
  {
    hide ByteOf;
    hide WithLeft;
    hide WithRight;
    hide Execute;
    hide Translation;
    var b := addr % 4;
    LoadedValue(c, op, rt, addr, c');
    var p := Translation(c.tables, addr - b, 4, false).phys;
    var m, before, after := c.mem[p..p + 4], Commit(c, 0, 0).regs, Commit(c', 0, 0).regs;
    forall r: Register | r != rt || rt == 0 ensures after[r] == before[r] {
      CommitIs(c', 0, 0, r);
      CommitIs(c, 0, 0, 0);
    }
    if rt != 0 {
      BypassedIs(c, rt);
      CommitIs(c', 0, 0, rt);
      hide Commit;
      hide Bypassed;
      LeftBytes(b, before[rt], m);
      RightBytes(b, before[rt], m);
    }
  }

  /** What SWL or SWR leaves in memory: the register's bytes as they are before a pending load commits, in their
      places, and nothing else. */
  lemma StoreMeaning(c: Cpu, op: Opcode, rt: Register, addr: nat, c': Cpu)
    requires c.Ok() && (op == SWL || op == SWR) && Execute(c, op, rt, addr) == Done(c')
    ensures c'.loadReg == 0 && c'.regs == Commit(c, 0, 0).regs && |c'.mem| == |c.mem|
    ensures var b, write := addr % 4, Translation(c.tables, addr - addr % 4, 4, true);
            && write.Granted? && write.phys + 4 <= MEMORY_SIZE && SameMapping(c.tables, c'.tables)
            && forall q | 0 <= q < |c.mem| ::
                 c'.mem[q] ==
                 if op == SWL then
                   if write.phys <= q <= write.phys + b then ByteOf(c.regs[rt], q - write.phys + 3 - b) else c.mem[q]
                 else
                   if write.phys + b <= q < write.phys + 4 then ByteOf(c.regs[rt], q - write.phys - b) else c.mem[q]
  {
    hide ByteOf;
    hide LeftStored;
    hide RightStored;
    hide Translation;
    hide Execute;
    hide Splice;
    hide SameMapping;
    var b := addr % 4;
    TrapIff(c, op, rt, addr);
    AccessWithinFrame(c.tables, addr - b, 4, true);
    var p := Translation(c.tables, addr - b, 4, true).phys;
    var c1 := StoreStep(c, op, rt, addr, p);
    LeftAt(c.mem, p, b, c.regs[rt]);
    RightAt(c.mem, p, b, c.regs[rt]);
  }

  /** An instruction traps exactly if the access it makes is refused. Then memory is as it was, the pending load has
      committed, and no other is pending. The word to be merged is read first, so a page that can be read but not
      written gives the read-only exception. */
  lemma TrapIff(c: Cpu, op: Opcode, rt: Register, addr: nat)
    requires c.Ok()
    ensures var w, r, writing := addr - addr % 4, Execute(c, op, rt, addr), op == SWL || op == SWR;
            var read := Translation(c.tables, w, 4, false);
            && (r.Trap? <==> Translation(c.tables, w, 4, writing).Denied?)
            && (r.Trap? ==>
                  && r.e == (if read.Denied? then read.e else ReadOnlyException)
                  && r.cpu.mem == c.mem && r.cpu.regs == Commit(c, 0, 0).regs && r.cpu.loadReg == 0)
  {
    hide LookUp;
    hide Join;
    hide ByteOf;
    hide WithLeft;
    hide WithRight;
    hide LeftStored;
    hide RightStored;
    var w := addr - addr % 4;
    var read := Translation(c.tables, w, 4, false);
    if Translation(c.tables, w, 4, true).Granted? {
      WritableIsReadable(c.tables, w, 4);
    }
    if read.Granted? {
      SameAsItself(c.tables);
      SameTranslation(c.tables, c.tables, w, 4, false);
      SameTranslation(c.tables, read.tables, w, 4, true);
    }
  }

  // ---------------------------------------------------------------------
  // Storing and reloading at any alignment
  // ---------------------------------------------------------------------

  /** The two aligned words that hold the bytes a .. a + 3; the same word when `a` is aligned. */
  function Aligned(a: nat): (w: nat) {
    a - a % 4
  }

  lemma TwoWords(a: nat)
    ensures a % 4 == 0 ==> Aligned(a + 3) == Aligned(a) && (a + 3) % 4 == 3
    ensures a % 4 != 0 ==> Aligned(a + 3) == Aligned(a) + 4 && (a + 3) % 4 == a % 4 - 1
  {
  }

  /** Where in real memory byte `k` of the word at `a` lives, when its two aligned words live at p1 and p2. */
  function Place(p1: nat, p2: nat, a: nat, k: nat): (p: nat) {
    if a % 4 + k < 4 then p1 + a % 4 + k else p2 + a % 4 + k - 4
  }

  /** The two aligned words do not overlap, even when two pages are mapped to the same frame. */
  lemma WordsApart(t: Tables, w: nat)
    requires w % 4 == 0
    requires Translation(t, w, 4, true).Granted? && Translation(t, w + 4, 4, true).Granted?
    ensures var p, q := Translation(t, w, 4, true).phys, Translation(t, w + 4, 4, true).phys;
            p + 4 <= q || q + 4 <= p
  {
    hide LookUp;
    hide Touch;
    AccessWithinFrame(t, w, 4, true);
    AccessWithinFrame(t, w + 4, 4, true);
  }

  ghost predicate StoredAt(mem: seq<bv8>, mem': seq<bv8>, p1: nat, p2: nat, a: nat, reg: bv32) {
    && p1 + 4 <= |mem| && p2 + 4 <= |mem| && |mem'| == |mem|
    && (forall k | 0 <= k < 4 :: mem'[Place(p1, p2, a, k)] == ByteOf(reg, k))
    && (forall q | 0 <= q < |mem| :: mem'[q] == mem[q] || exists k | 0 <= k < 4 :: q == Place(p1, p2, a, k))
  }

  lemma RightAt(mem: seq<bv8>, p: nat, b: nat, reg: bv32)
    requires p + 4 <= |mem| && b < 4
    ensures var mem1 := Splice(mem, p, RightStored(b, mem[p..p + 4], reg));
            forall q | 0 <= q < |mem| :: mem1[q] == if p + b <= q < p + 4 then ByteOf(reg, q - p - b) else mem[q]
  {
    hide ByteOf;
  }

  lemma LeftAt(mem: seq<bv8>, p: nat, b: nat, reg: bv32)
    requires p + 4 <= |mem| && b < 4
    ensures var mem1 := Splice(mem, p, LeftStored(b, mem[p..p + 4], reg));
            forall q | 0 <= q < |mem| :: mem1[q] == if p <= q <= p + b then ByteOf(reg, q - p + 3 - b) else mem[q]
  {
    hide ByteOf;
  }

  /** What SWR at `a` with the value `early` and SWL at a + 3 with the value `late` leave at a .. a + 3: the bytes up
      to the next word boundary are those of `early`, the others those of `late`, except that both instructions
      write the whole word when `a` is aligned. */
  function Mixed(a: nat, early: bv32, late: bv32): (w: bv32) {
    if a % 4 == 0 then late
    else
      Join(ByteOf(early, 0),
           ByteOf(if a % 4 <= 2 then early else late, 1),
           ByteOf(if a % 4 <= 1 then early else late, 2),
           ByteOf(late, 3))
  }

  lemma BytesOfMixed(a: nat, early: bv32, late: bv32, k: nat)
    requires k < 4
    ensures ByteOf(Mixed(a, early, late), k) == ByteOf(if a % 4 == 0 || k >= 4 - a % 4 then late else early, k)
  {
    hide ByteOf;
    hide Join;
    BytesOfJoin(ByteOf(early, 0),
                ByteOf(if a % 4 <= 2 then early else late, 1),
                ByteOf(if a % 4 <= 1 then early else late, 2),
                ByteOf(late, 3));
  }

  /** The bytes of the two values that SWR stores, and SWL does not, agree. */
  predicate LowBytesAgree(a: nat, early: bv32, late: bv32) {
    forall k | 0 <= k < 4 - a % 4 :: ByteOf(early, k) == ByteOf(late, k)
  }

  lemma MixedIff(a: nat, early: bv32, late: bv32)
    ensures Mixed(a, early, late) == late <==> a % 4 == 0 || LowBytesAgree(a, early, late)
  {
    hide ByteOf;
    hide Join;
    JoinOfBytes(late);
    forall k | 0 <= k < 4
      ensures ByteOf(Mixed(a, early, late), k) == ByteOf(if a % 4 == 0 || k >= 4 - a % 4 then late else early, k)
    {
      BytesOfMixed(a, early, late, k);
    }
  }

  /** After the two partial stores each byte is in its place, and nothing else changed. */
  lemma StoreBoth(mem: seq<bv8>, p1: nat, p2: nat, a: nat, early: bv32, late: bv32)
    requires p1 + 4 <= |mem| && p2 + 4 <= |mem|
    requires if a % 4 == 0 then p2 == p1 else p1 + 4 <= p2 || p2 + 4 <= p1
    ensures var mem1 := Splice(mem, p1, RightStored(a % 4, mem[p1..p1 + 4], early));
            var mem2 := Splice(mem1, p2, LeftStored((a + 3) % 4, mem1[p2..p2 + 4], late));
            StoredAt(mem, mem2, p1, p2, a, Mixed(a, early, late))
  {
    hide ByteOf;
    hide RightStored;
    hide LeftStored;
    hide Splice;
    hide Mixed;
    var b := a % 4;
    TwoWords(a);
    var mem1 := Splice(mem, p1, RightStored(b, mem[p1..p1 + 4], early));
    var mem2 := Splice(mem1, p2, LeftStored((a + 3) % 4, mem1[p2..p2 + 4], late));
    RightAt(mem, p1, b, early);
    LeftAt(mem1, p2, (a + 3) % 4, late);
    forall k | 0 <= k < 4 ensures mem2[Place(p1, p2, a, k)] == ByteOf(Mixed(a, early, late), k) {
      BytesOfMixed(a, early, late, k);
    }
    forall q | 0 <= q < |mem|
      ensures mem2[q] == mem[q] || exists k | 0 <= k < 4 :: q == Place(p1, p2, a, k)
    {
      if p1 + b <= q < p1 + 4 {
        assert q == Place(p1, p2, a, q - p1 - b);
      } else if b > 0 && p2 <= q < p2 + b {
        assert q == Place(p1, p2, a, q - p2 + 4 - b);
      }
    }
  }

  /** The two partial loads put those bytes back together, whatever the register held before. */
  lemma LoadBoth(mem: seq<bv8>, p1: nat, p2: nat, a: nat, reg: bv32, before: bv32)
    requires p1 + 4 <= |mem| && p2 + 4 <= |mem| && (a % 4 == 0 ==> p2 == p1)
    requires forall k | 0 <= k < 4 :: mem[Place(p1, p2, a, k)] == ByteOf(reg, k)
    ensures WithLeft((a + 3) % 4, WithRight(a % 4, before, mem[p1..p1 + 4]), mem[p2..p2 + 4]) == reg
  {
    hide ByteOf;
    hide Join;
    hide WithLeft;
    hide WithRight;
    var right := WithRight(a % 4, before, mem[p1..p1 + 4]);
    var both := WithLeft((a + 3) % 4, right, mem[p2..p2 + 4]);
    TwoWords(a);
    RightBytes(a % 4, before, mem[p1..p1 + 4]);
    LeftBytes((a + 3) % 4, right, mem[p2..p2 + 4]);
    forall k | 0 <= k < 4 ensures ByteOf(both, k) == ByteOf(reg, k) {
      assert mem[Place(p1, p2, a, k)] == ByteOf(reg, k);
    }
    JoinOfBytes(both);
    JoinOfBytes(reg);
  }

  /** The aligned word at virtual address `w` may be read and written, and lives at `p`. */
  ghost predicate WritableWord(t: Tables, w: nat, p: nat) {
    var r := Translation(t, w, 4, true);
    r.Granted? && r.phys == p && p + 4 <= MEMORY_SIZE
  }

  /** The instruction completes, taking `c` to `c'`. */
  ghost predicate Completes(c: Cpu, op: Opcode, rt: Register, addr: nat, c': Cpu) {
    c.Ok() && c'.Ok() && Execute(c, op, rt, addr) == Done(c') && SameMapping(c.tables, c'.tables)
  }

  lemma SameAsItself(t: Tables)
    ensures SameMapping(t, t)
  {
  }

  lemma ReadThenWrite(t: Tables, w: nat, p: nat)
    requires WritableWord(t, w, p)
    ensures var r := Translation(t, w, 4, false);
            && r.Granted? && r.phys == p && SameMapping(t, r.tables)
            && var r2 := Translation(r.tables, w, 4, true);
               && r2.Granted? && r2.phys == p && SameMapping(t, r2.tables)
  {
    hide LookUp;
    WritableIsReadable(t, w, 4);
    SameAsItself(t);
    SameTranslation(t, t, w, 4, false);
    SameTranslation(t, Translation(t, w, 4, false).tables, w, 4, true);
  }

  /** A partial store to a writable word completes; it changes that word, the pending load and use/dirty bits only. */
  lemma StoreStep(c: Cpu, op: Opcode, rt: Register, addr: nat, p: nat) returns (c': Cpu)
    requires c.Ok() && (op == SWL || op == SWR)
    requires WritableWord(c.tables, Aligned(addr), p)
    ensures Completes(c, op, rt, addr, c')
    ensures c'.regs == Commit(c, 0, 0).regs && c'.loadReg == 0
    ensures var b := addr % 4;
            c'.mem == Splice(c.mem, p, if op == SWL then LeftStored(b, c.mem[p..p + 4], c.regs[rt])
                                                  else RightStored(b, c.mem[p..p + 4], c.regs[rt]))
  {
    hide ByteOf;
    hide LookUp;
    hide LeftStored;
    hide RightStored;
    hide Translation;
    ReadThenWrite(c.tables, Aligned(addr), p);
    c' := Execute(c, op, rt, addr).cpu;
  }

  /** A partial load from such a word completes and leaves the merged value pending. */
  lemma LoadStep(c: Cpu, op: Opcode, rt: Register, addr: nat, p: nat) returns (c': Cpu)
    requires c.Ok() && (op == LWL || op == LWR)
    requires WritableWord(c.tables, Aligned(addr), p)
    ensures Completes(c, op, rt, addr, c')
    ensures c'.regs == Commit(c, 0, 0).regs && c'.loadReg == rt && c'.mem == c.mem
    ensures var b := addr % 4;
            c'.loadValue == if op == LWL then WithLeft(b, Bypassed(c, rt), c.mem[p..p + 4])
                                       else WithRight(b, Bypassed(c, rt), c.mem[p..p + 4])
  {
    hide ByteOf;
    hide Join;
    hide LookUp;
    hide WithLeft;
    hide WithRight;
    hide Translation;
    ReadThenWrite(c.tables, Aligned(addr), p);
    c' := Execute(c, op, rt, addr).cpu;
  }

  /** A word stays writable, at the same place, when only use and dirty bits change. */
  lemma StillWritable(t: Tables, t': Tables, w: nat, p: nat)
    requires SameMapping(t, t') && WritableWord(t, w, p)
    ensures WritableWord(t', w, p)
  {
    hide LookUp;
    SameTranslation(t, t', w, 4, true);
  }

  lemma SameMappingJoins(t: Tables, u: Tables, v: Tables)
    requires SameMapping(t, u) && SameMapping(u, v)
    ensures SameMapping(t, v)
  {
  }

  /** Both aligned words of the four bytes at `a` are writable, at p1 and p2. */
  ghost predicate WritableAt(t: Tables, a: nat, p1: nat, p2: nat) {
    WritableWord(t, Aligned(a), p1) && WritableWord(t, Aligned(a + 3), p2)
  }

  lemma PlacesApart(t: Tables, a: nat, p1: nat, p2: nat)
    requires WritableAt(t, a, p1, p2)
    ensures p1 + 4 <= MEMORY_SIZE && p2 + 4 <= MEMORY_SIZE
    ensures if a % 4 == 0 then p2 == p1 else p1 + 4 <= p2 || p2 + 4 <= p1
  {
    hide Translation;
    TwoWords(a);
    if a % 4 != 0 {
      WordsApart(t, Aligned(a));
    }
  }

  /** What SWR and SWL store from register `rt` when they start in `c`: neither bypasses a pending load, so SWR
      stores the register as it is and SWL stores it after a load that was pending to it has committed. */
  function WordStored(c: Cpu, rt: Register, a: nat): (w: bv32)
    requires |c.regs| == NUM_GP_REGS
  {
    Mixed(a, c.regs[rt], Commit(c, 0, 0).regs[rt])
  }

  /** SWR then SWL: that word is stored at a .. a + 3 and nothing else changes in memory. */
  lemma StoreWord(c: Cpu, rt: Register, a: nat, p1: nat, p2: nat) returns (c1: Cpu, c2: Cpu)
    requires c.Ok() && WritableAt(c.tables, a, p1, p2)
    ensures Completes(c, SWR, rt, a, c1) && Completes(c1, SWL, rt, a + 3, c2)
    ensures c1.regs == c2.regs == Commit(c, 0, 0).regs && c2.loadReg == 0 && SameMapping(c.tables, c2.tables)
    ensures StoredAt(c.mem, c2.mem, p1, p2, a, WordStored(c, rt, a))
  {
    hide Execute;
    hide ByteOf;
    hide Splice;
    hide LeftStored;
    hide RightStored;
    hide SameMapping;
    hide StoredAt;
    hide WritableWord;
    hide Mixed;
    c1 := StoreStep(c, SWR, rt, a, p1);
    StillWritable(c.tables, c1.tables, Aligned(a + 3), p2);
    c2 := StoreStep(c1, SWL, rt, a + 3, p2);
    SameMappingJoins(c.tables, c1.tables, c2.tables);
    PlacesApart(c.tables, a, p1, p2);
    StoreBoth(c.mem, p1, p2, a, c.regs[rt], c1.regs[rt]);
  }

  /** LWR then LWL from a .. a + 3, once the last load commits: the destination holds the stored word, whatever load
      was pending at the start, even one to the destination. */
  lemma LoadWord(c: Cpu, rd: Register, a: nat, p1: nat, p2: nat, reg: bv32) returns (c1: Cpu, c2: Cpu)
    requires c.Ok() && WritableAt(c.tables, a, p1, p2)
    requires p1 + 4 <= MEMORY_SIZE && p2 + 4 <= MEMORY_SIZE
    requires forall k | 0 <= k < 4 :: c.mem[Place(p1, p2, a, k)] == ByteOf(reg, k)
    ensures Completes(c, LWR, rd, a, c1) && Completes(c1, LWL, rd, a + 3, c2)
    ensures c2.mem == c.mem && SameMapping(c.tables, c2.tables)
    ensures c1.regs == Commit(c, 0, 0).regs
    ensures Commit(c2, 0, 0).regs == c1.regs[rd := if rd == 0 then 0 else reg]
  {
    hide Execute;
    hide ByteOf;
    hide WithLeft;
    hide WithRight;
    hide SameMapping;
    hide WritableWord;
    hide Place;
    c1 := LoadStep(c, LWR, rd, a, p1);
    StillWritable(c.tables, c1.tables, Aligned(a + 3), p2);
    c2 := LoadStep(c1, LWL, rd, a + 3, p2);
    SameMappingJoins(c.tables, c1.tables, c2.tables);
    PlacesApart(c.tables, a, p1, p2);
    LoadBoth(c.mem, p1, p2, a, reg, Bypassed(c, rd));
  }

  /** SWR at A, SWL at A + 3, LWR at A, LWL at A + 3, from any state and for every A whose bytes are mapped and
      writable: no instruction traps, the loaded register ends up with the word that was stored, memory changes in
      the four bytes A .. A + 3 only, and no other register changes beyond the load that was pending at the start.
      In particular the base register holds still, even when it is also the destination. */
  lemma UnalignedReload(c: Cpu, rt: Register, rd: Register, a: nat, p1: nat, p2: nat)
    returns (c1: Cpu, c2: Cpu, c3: Cpu, c4: Cpu)
    requires c.Ok() && WritableAt(c.tables, a, p1, p2)
    ensures Completes(c, SWR, rt, a, c1) && Completes(c1, SWL, rt, a + 3, c2)
    ensures Completes(c2, LWR, rd, a, c3) && Completes(c3, LWL, rd, a + 3, c4)
    ensures c1.regs == c2.regs == c3.regs == Commit(c, 0, 0).regs
    ensures Commit(c4, 0, 0).regs == Commit(c, 0, 0).regs[rd := if rd == 0 then 0 else WordStored(c, rt, a)]
    ensures StoredAt(c.mem, c4.mem, p1, p2, a, WordStored(c, rt, a))
  {
    hide Execute;
    hide ByteOf;
    hide SameMapping;
    hide WritableWord;
    hide Place;
    hide Mixed;
    c1, c2 := StoreWord(c, rt, a, p1, p2);
    StillWritable(c.tables, c2.tables, Aligned(a), p1);
    StillWritable(c.tables, c2.tables, Aligned(a + 3), p2);
    c3, c4 := LoadWord(c2, rd, a, p1, p2, WordStored(c, rt, a));
  }

  /** The round trip. The loaded register gets the value of the stored one exactly if the address is aligned, or
      the bytes that SWR stores are the same before and after the pending load commits. */
  lemma UnalignedRoundTrip(c: Cpu, rt: Register, rd: Register, a: nat, p1: nat, p2: nat)
    returns (c1: Cpu, c2: Cpu, c3: Cpu, c4: Cpu)
    requires c.Ok() && WritableAt(c.tables, a, p1, p2)
    ensures Completes(c, SWR, rt, a, c1) && Completes(c1, SWL, rt, a + 3, c2)
    ensures Completes(c2, LWR, rd, a, c3) && Completes(c3, LWL, rd, a + 3, c4)
    ensures var before, after := Commit(c, 0, 0).regs, Commit(c4, 0, 0).regs;
            && (rd != 0 ==> (after[rd] == before[rt] <==> a % 4 == 0 || LowBytesAgree(a, c.regs[rt], before[rt])))
            && (rd != 0 ==> StoredAt(c.mem, c4.mem, p1, p2, a, after[rd]))
            && (forall r: Register | r != rd || rd == 0 :: after[r] == before[r])
  {
    hide Execute;
    hide SameMapping;
    hide WritableWord;
    hide StoredAt;
    hide Mixed;
    hide LowBytesAgree;
    c1, c2, c3, c4 := UnalignedReload(c, rt, rd, a, p1, p2);
    MixedIff(a, c.regs[rt], Commit(c, 0, 0).regs[rt]);
  }

  /** With no load pending to the stored register the round trip always succeeds. */
  lemma NothingPending(c: Cpu, rt: Register, a: nat)
    requires c.Ok() && (c.loadReg == 0 || c.loadReg != rt)
    ensures Commit(c, 0, 0).regs[rt] == c.regs[rt] && LowBytesAgree(a, c.regs[rt], Commit(c, 0, 0).regs[rt])
    ensures WordStored(c, rt, a) == c.regs[rt]
  {
    hide ByteOf;
    hide Mixed;
    MixedIff(a, c.regs[rt], Commit(c, 0, 0).regs[rt]);
  }

  /** A state in which a load of 1 to register 2 is pending, which held 0. */
  function PendingLoad(): (c: Cpu)
    ensures c.Ok()
  {
    var entry := TranslationEntry(0, 0, true, false, false, false);
    Cpu(seq(NUM_GP_REGS, _ => 0), 2, 1, seq(MEMORY_SIZE, _ => 0), PageTable([entry]))
  }

  /** The round trip fails there: storing register 2 at address 1 and loading register 3 from it yields 0, not 1. */
  lemma PendingLoadIsTorn() returns (c1: Cpu, c2: Cpu, c3: Cpu, c4: Cpu)
    ensures WritableAt(PendingLoad().tables, 1, 0, 4)
    ensures Completes(PendingLoad(), SWR, 2, 1, c1) && Completes(c1, SWL, 2, 4, c2)
    ensures Completes(c2, LWR, 3, 1, c3) && Completes(c3, LWL, 3, 4, c4)
    ensures Commit(PendingLoad(), 0, 0).regs[2] == 1 && Commit(c4, 0, 0).regs[3] != 1
  {
    hide Execute;
    hide SameMapping;
    hide StoredAt;
    hide Mixed;
    hide Join;
    assert WritableAt(PendingLoad().tables, 1, 0, 4);
    hide WritableWord;
    c1, c2, c3, c4 := UnalignedRoundTrip(PendingLoad(), 2, 3, 1, 0, 4);
    assert ByteOf(0, 0) != ByteOf(1, 0);
  }

  // ---------------------------------------------------------------------
  // The machine
  // ---------------------------------------------------------------------

  /** The slots of the source's `registers` array that hold register numbers or code addresses (LoadReg,
      LoadValueReg, PCReg, NextPCReg, PrevPCReg, BadVAddrReg) are fields of their own. */
  class Machine {
    const registers: array<bv32>
    var loadReg: Register
    var loadValue: bv32
    var pc: bv32
    var nextPC: bv32
    var prevPC: bv32
    var badVAddr: nat
    const mainMemory: array<bv8>
    const usesTlb: bool
    const table: array<TranslationEntry>  // the TLB or the page table, whichever the machine has

    ghost predicate Valid()
      reads registers
    {
      && registers.Length == NUM_GP_REGS && registers[0] == 0
      && mainMemory.Length == MEMORY_SIZE
      && (usesTlb ==> table.Length == TLB_SIZE)
      && registers as object != mainMemory && registers as object != table && mainMemory as object != table
    }

    ghost function Tables(): Tables
      reads table
    {
      if usesTlb then Tlb(table[..]) else PageTable(table[..])
    }

    ghost function State(): Cpu
      reads this, registers, mainMemory, table
    {
      Cpu(registers[..], loadReg, loadValue, mainMemory[..], Tables())
    }

    method Translate(virtAddr: nat, size: nat, writing: bool) returns (e: ExceptionType, physAddr: nat)
      requires Valid() && virtAddr < ADDRESSES && (size == 1 || size == 2 || size == 4)
      modifies table
      ensures match Translation(old(Tables()), virtAddr, size, writing)
              case Denied(x) => e == x && e != NoException && Tables() == old(Tables())
              case Granted(p, t) => e == NoException && physAddr == p && physAddr + size <= MEMORY_SIZE && Tables() == t
    {
      physAddr := 0;
      if (size == 4 && virtAddr % 4 != 0) || (size == 2 && virtAddr % 2 != 0) {
        return AddressErrorException, physAddr;
      }
      var vpn := virtAddr / PAGE_SIZE;
      var offset := virtAddr % PAGE_SIZE;
      var index := 0;
      if !usesTlb {
        if vpn >= table.Length {
          return AddressErrorException, physAddr;
        } else if !table[vpn].valid {
          return PageFaultException, physAddr;
        }
        index := vpn;
      } else {
        while index < TLB_SIZE && !(table[index].valid && table[index].virtualPage == vpn)
          invariant index <= TLB_SIZE
          invariant FirstMatch(table[..], vpn, 0) == FirstMatch(table[..], vpn, index)
        {
          index := index + 1;
        }
        if index == TLB_SIZE {
          return PageFaultException, physAddr;
        }
      }
      if table[index].readOnly && writing {
        return ReadOnlyException, physAddr;
      }
      var pageFrame := table[index].physicalPage;
      if pageFrame < 0 || pageFrame >= NUM_PHYS_PAGES {  // compared as unsigned
        return BusErrorException, physAddr;
      }
      table[index] := table[index].(use := true);
      if writing {
        table[index] := table[index].(dirty := true);
      }
      physAddr := pageFrame * PAGE_SIZE + offset;
      AccessWithinFrame(old(Tables()), virtAddr, size, writing);
      assert physAddr + size <= MEMORY_SIZE;  // the source's ASSERT
      return NoException, physAddr;
    }

    method DelayedLoad(nextReg: Register, nextValue: bv32)
      requires Valid()
      modifies this, registers
      ensures Valid() && State() == Commit(old(State()), nextReg, nextValue)
      ensures pc == old(pc) && nextPC == old(nextPC) && prevPC == old(prevPC) && badVAddr == old(badVAddr)
    {
      registers[loadReg] := loadValue;
      loadReg := nextReg;
      loadValue := nextValue;
      registers[0] := 0;
    }

    /** RaiseException up to the call of the kernel's handler. */
    method RaiseException(badVAddr: nat)
      requires Valid()
      modifies this, registers
      ensures Valid() && State() == Commit(old(State()), 0, 0)
      ensures this.badVAddr == badVAddr
      ensures pc == old(pc) && nextPC == old(nextPC) && prevPC == old(prevPC)
    {
      this.badVAddr := badVAddr;
      DelayedLoad(0, 0);
    }

    /** ReadMem with size 4 */
    method ReadWord(addr: nat) returns (e: ExceptionType, value: bv32)
      requires Valid() && addr < ADDRESSES
      modifies this, registers, table
      ensures Valid() && pc == old(pc) && nextPC == old(nextPC) && prevPC == old(prevPC)
      ensures match Translation(old(Tables()), addr, 4, false)
              case Denied(x) => e == x && e != NoException && State() == Commit(old(State()), 0, 0) && badVAddr == addr
              case Granted(p, t) =>
                && e == NoException && State() == old(State()).(tables := t)
                && p + 4 <= MEMORY_SIZE && value == Word(mainMemory[p..p + 4])
    {
      hide Translation;
      hide Join;
      value := 0;
      var p: nat;
      e, p := Translate(addr, 4, false);
      if e != NoException {
        RaiseException(addr);
        return;
      }
      value := Join(mainMemory[p], mainMemory[p + 1], mainMemory[p + 2], mainMemory[p + 3]);
    }

    /** WriteMem with size 4 */
    method WriteWord(addr: nat, value: bv32) returns (e: ExceptionType)
      requires Valid() && addr < ADDRESSES
      modifies this, registers, table, mainMemory
      ensures Valid() && pc == old(pc) && nextPC == old(nextPC) && prevPC == old(prevPC)
      ensures match Translation(old(Tables()), addr, 4, true)
              case Denied(x) => e == x && e != NoException && State() == Commit(old(State()), 0, 0) && badVAddr == addr
              case Granted(p, t) =>
                && e == NoException && p + 4 <= MEMORY_SIZE
                && State() == old(State()).(tables := t, mem := Splice(old(mainMemory[..]), p, WordBytes(value)))
    {
      hide Translation;
      hide ByteOf;
      var p: nat;
      e, p := Translate(addr, 4, true);
      if e != NoException {
        RaiseException(addr);
        return;
      }
      mainMemory[p], mainMemory[p + 1], mainMemory[p + 2], mainMemory[p + 3] :=
        ByteOf(value, 0), ByteOf(value, 1), ByteOf(value, 2), ByteOf(value, 3);
    }

    /** The LWL and LWR cases: read the aligned word and merge it with the register, bypassing a pending load. */
    method PartialLoad(op: Opcode, rt: Register, tmp: nat) returns (e: ExceptionType, nextLoadValue: bv32)
      requires Valid() && tmp < ADDRESSES && (op == LWL || op == LWR)
      modifies this, registers, table
      ensures Valid() && pc == old(pc) && nextPC == old(nextPC) && prevPC == old(prevPC)
      ensures match Execute(old(State()), op, rt, tmp)
              case Trap(x, c) => e == x && e != NoException && State() == c && badVAddr == tmp - tmp % 4
              case Done(c) => e == NoException && c == Commit(State(), rt, nextLoadValue)
    {
      hide Translation;
      hide Join;
      hide WithLeft;
      hide WithRight;
      hide LwlMerge;
      hide LwrMerge;
      var byte_ := tmp % 4;
      var value: bv32;
      ghost var c := State();
      e, value := ReadWord(tmp - byte_);
      nextLoadValue := 0;
      if e != NoException {
        return;
      }
      nextLoadValue := if loadReg == rt then loadValue else registers[rt];
      ghost var p := Translation(c.tables, tmp - byte_, 4, false).phys;
      LwlMeaning(byte_, nextLoadValue, mainMemory[p..p + 4]);
      LwrMeaning(byte_, nextLoadValue, mainMemory[p..p + 4]);
      if op == LWL {
        nextLoadValue := LwlMerge(byte_, nextLoadValue, value);
      } else {
        nextLoadValue := LwrMerge(byte_, nextLoadValue, value);
      }
    }

    /** The SWL and SWR cases: read the aligned word, merge the register into it, write it back. */
    method PartialStore(op: Opcode, rt: Register, tmp: nat) returns (e: ExceptionType)
      requires Valid() && tmp < ADDRESSES && (op == SWL || op == SWR)
      modifies this, registers, table, mainMemory
      ensures Valid() && pc == old(pc) && nextPC == old(nextPC) && prevPC == old(prevPC)
      ensures match Execute(old(State()), op, rt, tmp)
              case Trap(x, c) => e == x && e != NoException && State() == c && badVAddr == tmp - tmp % 4
              case Done(c) => e == NoException && c == Commit(State(), 0, 0)
    {
      hide Translation;
      hide Execute;
      hide Commit;
      hide Word;
      hide WordBytes;
      hide SwlMerge;
      hide SwrMerge;
      hide Splice;
      var byte_ := tmp % 4;
      var value: bv32;
      StoreCases(State(), op, rt, tmp);
      e, value := ReadWord(tmp - byte_);
      if e != NoException {
        return;
      }
      if op == SWL {
        value := SwlMerge(byte_, value, registers[rt]);
      } else {
        value := SwrMerge(byte_, value, registers[rt]);
      }
      e := WriteWord(tmp - byte_, value);
    }

    /** The four cases, from the switch on the opcode to the end of OneInstruction. */
    method Finish(op: Opcode, rt: Register, tmp: nat) returns (e: ExceptionType)
      requires Valid() && tmp < ADDRESSES
      modifies this, registers, table, mainMemory
      ensures Valid()
      ensures match Execute(old(State()), op, rt, tmp)
              case Trap(x, c) => e == x && e != NoException && State() == c && badVAddr == tmp - tmp % 4
                                 && pc == old(pc) && nextPC == old(nextPC) && prevPC == old(prevPC)
              case Done(c) => e == NoException && State() == c
                              && prevPC == old(pc) && pc == old(nextPC) && nextPC == old(nextPC) + 4
    {
      hide Execute;
      hide Commit;
      hide State;
      hide Valid;
      var pcAfter := nextPC + 4;
      var nextLoadReg: Register := 0;
      var nextLoadValue: bv32 := 0;
      if op == LWL || op == LWR {
        nextLoadReg := rt;
        e, nextLoadValue := PartialLoad(op, rt, tmp);
      } else {
        e := PartialStore(op, rt, tmp);
      }
      if e != NoException {
        return;
      }
      Retire(nextLoadReg, nextLoadValue, pcAfter);
    }

    /** The end of OneInstruction: the delayed load, and the program counters move on. */
    method Retire(nextLoadReg: Register, nextLoadValue: bv32, pcAfter: bv32)
      requires Valid()
      modifies this, registers
      ensures Valid() && State() == Commit(old(State()), nextLoadReg, nextLoadValue)
      ensures prevPC == old(pc) && pc == old(nextPC) && nextPC == pcAfter
    {
      hide Commit;
      DelayedLoad(nextLoadReg, nextLoadValue);
      prevPC := pc;
      pc := nextPC;
      nextPC := pcAfter;
    }

    /** The LWL, LWR, SWL and SWR cases of OneInstruction, after fetch and decode; the address wraps around. */
    method OneInstruction(op: Opcode, rs: Register, rt: Register, extra: bv32) returns (e: ExceptionType)
      requires Valid()
      modifies this, registers, table, mainMemory
      ensures Valid()
      ensures var addr := Address(old(registers[rs]) + extra);
              match Execute(old(State()), op, rt, addr)
              case Trap(x, c) => e == x && e != NoException && State() == c && badVAddr == addr - addr % 4
                                 && pc == old(pc) && nextPC == old(nextPC) && prevPC == old(prevPC)
              case Done(c) => e == NoException && State() == c
                              && prevPC == old(pc) && pc == old(nextPC) && nextPC == old(nextPC) + 4
    {
      hide Execute;
      hide Address;
      var tmp := Address(registers[rs] + extra);
      e := Finish(op, rt, tmp);
    }
  }
}
