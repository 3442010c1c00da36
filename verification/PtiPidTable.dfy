/** The slot allocator of the transport demultiplexer and the PID table it keeps in the data
    memory of the transport controller, which the firmware scans while the driver edits it. */
module PtiPidTable {

  const SLOTS := 32
  const ENTRIES := 64
  const HANDLE_OFFSET := 20000
  const NO_PID: bv16 := 0xffff

  // Byte addresses of the firmware symbols, and the start of the data memory that holds them.
  const DRAM_BASE := 32768
  const DRAM_WORDS := 64
  const NUM_PIDS := 32810
  const PIDTABLE := 32826

  // ---------------------------------------------------------------------------------------
  // Data memory: 32-bit words, written a halfword at a time by read-modify-write
  // ---------------------------------------------------------------------------------------

  predicate IsHalfword(addr: int) {
    DRAM_BASE <= addr < DRAM_BASE + 4 * DRAM_WORDS && addr % 2 == 0
  }

  function WordOf(addr: int): int {
    (addr - DRAM_BASE) / 4
  }

  function HalfOf(word: bv32, upper: bool): bv16 {
    if upper then (word >> 16) as bv16 else (word & 0x0000ffff) as bv16
  }

  function Merge(word: bv32, upper: bool, value: bv16): bv32 {
    if upper then (word & 0x0000ffff) | ((value as bv32) << 16)
    else (word & 0xffff0000) | (value as bv32)
  }

  function Half(words: seq<bv32>, addr: int): bv16
    requires |words| == DRAM_WORDS && IsHalfword(addr)
  {
    HalfOf(words[WordOf(addr)], addr % 4 == 2)
  }

  function Written(words: seq<bv32>, addr: int, value: bv16): seq<bv32>
    requires |words| == DRAM_WORDS && IsHalfword(addr)
  {
    words[WordOf(addr) := Merge(words[WordOf(addr)], addr % 4 == 2, value)]
  }

  lemma MergeUpper(w: bv32, value: bv16)
    ensures HalfOf(Merge(w, true, value), true) == value && HalfOf(Merge(w, true, value), false) == HalfOf(w, false)
  {
  }

  lemma MergeLower(w: bv32, value: bv16)
    ensures HalfOf(Merge(w, false, value), false) == value && HalfOf(Merge(w, false, value), true) == HalfOf(w, true)
  {
  }

  /** A write through PtiWrite changes its own halfword and no other. */
  lemma WriteIsLocal(words: seq<bv32>, addr: int, value: bv16, other: int)
    requires |words| == DRAM_WORDS && IsHalfword(addr) && IsHalfword(other)
    ensures Half(Written(words, addr, value), other) == if other == addr then value else Half(words, other)
  {
    if WordOf(other) == WordOf(addr) {
      HalvesOfWord(addr, other);
      HalfOfMerge(words[WordOf(addr)], addr % 4 == 2, other % 4 == 2, value);
    }
  }

  lemma HalvesOfWord(addr: int, other: int)
    requires IsHalfword(addr) && IsHalfword(other) && WordOf(other) == WordOf(addr)
    ensures other == addr <==> (other % 4 == 2) == (addr % 4 == 2)
  {
  }

  lemma HalfOfMerge(w: bv32, upper: bool, other: bool, value: bv16)
    ensures HalfOf(Merge(w, upper, value), other) == if other == upper then value else HalfOf(w, other)
  {
    if
    case upper && other => MergeUpper(w, value);
    case upper && !other => MergeUpper(w, value);
    case !upper && other => MergeLower(w, value);
    case !upper && !other => MergeLower(w, value);
  }

  // ---------------------------------------------------------------------------------------
  // The state as the driver and the firmware see it
  // ---------------------------------------------------------------------------------------

  datatype Slot = Slot(handle: int, inUse: bool, tcIndex: int, pid: bv16)

  datatype State = State(slots: seq<Slot>, table: seq<bv16>, num: int)

  function TableOf(words: seq<bv32>): (t: seq<bv16>)
    requires |words| == DRAM_WORDS
  {
    seq(ENTRIES, i requires 0 <= i < ENTRIES => Half(words, PIDTABLE + 2 * i))
  }

  /** The count is declared as a signed short; it stays below ENTRIES, where that makes no difference. */
  function NumOf(words: seq<bv32>): int
    requires |words| == DRAM_WORDS
  {
    Half(words, NUM_PIDS) as int
  }

  lemma WriteEntry(words: seq<bv32>, i: int, value: bv16)
    requires |words| == DRAM_WORDS && 0 <= i < ENTRIES
    ensures TableOf(Written(words, PIDTABLE + 2 * i, value)) == TableOf(words)[i := value]
    ensures NumOf(Written(words, PIDTABLE + 2 * i, value)) == NumOf(words)
  {
    var after, wanted := TableOf(Written(words, PIDTABLE + 2 * i, value)), TableOf(words)[i := value];
    forall k | 0 <= k < ENTRIES ensures after[k] == wanted[k] {
      WriteIsLocal(words, PIDTABLE + 2 * i, value, PIDTABLE + 2 * k);
    }
    WriteIsLocal(words, PIDTABLE + 2 * i, value, NUM_PIDS);
  }

  lemma WriteHalf(words: seq<bv32>, v: bv16)
    requires |words| == DRAM_WORDS
    ensures TableOf(Written(words, NUM_PIDS, v)) == TableOf(words) && Half(Written(words, NUM_PIDS, v), NUM_PIDS) == v
  {
  }

  lemma ShortBack(n: int)
    requires 0 <= n <= ENTRIES
    ensures (n as bv16) as int == n
  {
    ShortModulo(n);
    SmallModulo(n);
  }

  lemma ShortModulo(n: int)
    requires 0 <= n < 0x10000
    ensures (n as bv16) as int == n % 0x10000
  {
  }

  lemma SmallModulo(n: int)
    requires 0 <= n < 0x10000
    ensures n % 0x10000 == n
  {
  }

  lemma WriteNum(words: seq<bv32>, n: int)
    requires |words| == DRAM_WORDS && 0 <= n <= ENTRIES
    ensures TableOf(Written(words, NUM_PIDS, n as bv16)) == TableOf(words)
    ensures NumOf(Written(words, NUM_PIDS, n as bv16)) == n
  {
    WriteHalf(words, n as bv16);
    ShortBack(n);
  }

  /** A halfword of the memory that belongs neither to the table nor to the count. */
  predicate Elsewhere(addr: int) {
    IsHalfword(addr) && addr != NUM_PIDS && !(PIDTABLE <= addr < PIDTABLE + 2 * ENTRIES)
  }

  ghost predicate Untouched(before: seq<bv32>, after: seq<bv32>)
    requires |before| == |after| == DRAM_WORDS
  {
    forall addr :: Elsewhere(addr) ==> Half(after, addr) == Half(before, addr)
  }

  lemma WriteStaysInside(words: seq<bv32>, addr: int, value: bv16)
    requires |words| == DRAM_WORDS && IsHalfword(addr) && !Elsewhere(addr)
    ensures Untouched(words, Written(words, addr, value))
  {
    forall other | Elsewhere(other) ensures Half(Written(words, addr, value), other) == Half(words, other) {
      WriteIsLocal(words, addr, value, other);
    }
  }

  lemma UntouchedTwice(a: seq<bv32>, b: seq<bv32>, c: seq<bv32>)
    requires |a| == |b| == |c| == DRAM_WORDS && Untouched(a, b) && Untouched(b, c)
    ensures Untouched(a, c)
  {
  }

  /** The PIDs the firmware collects: those in the entries below the count. */
  function Visible(table: seq<bv16>, num: int): set<bv16> {
    set k | 0 <= k < num && k < |table| :: table[k]
  }

  predicate Collecting(s: Slot) { s.tcIndex >= 0 }

  predicate Shape(s: State) {
    && |s.slots| == SLOTS && |s.table| == ENTRIES && 0 <= s.num < ENTRIES
    && (forall i :: 0 <= i < SLOTS ==> s.slots[i].handle == HANDLE_OFFSET + i)
  }

  predicate SlotOk(s: State, i: int)
    requires Shape(s) && 0 <= i < SLOTS
  {
    var t := s.slots[i];
    t.tcIndex == -1 || (0 <= t.tcIndex < s.num && t.inUse && t.pid != NO_PID && s.table[t.tcIndex] == t.pid)
  }

  /** Each slot that collects has an entry of its own below the count, which holds its PID, and no
      PID occurs twice. There may be entries without a slot. */
  ghost predicate Loose(s: State) {
    && Shape(s)
    && (forall i :: 0 <= i < SLOTS ==> SlotOk(s, i))
    && (forall i, j :: 0 <= i < j < SLOTS && Collecting(s.slots[i]) ==> s.slots[i].tcIndex != s.slots[j].tcIndex)
    && (forall j, k :: 0 <= j < k < s.num ==> s.table[j] != s.table[k])
  }

  /** The slots that collect are in bijection with the entries below the count, each entry holds
      the PID of its slot, and no PID occurs twice. */
  ghost predicate Inv(s: State) {
    Loose(s) && forall k :: 0 <= k < s.num ==> OwnerFrom(s.slots, k, 0) < SLOTS
  }

  // ---------------------------------------------------------------------------------------
  // The four operations, write by write
  // ---------------------------------------------------------------------------------------

  /** The first slot from `i` on that is not in use, or SLOTS. */
  function FirstFree(slots: seq<Slot>, i: int): (r: int)
    requires 0 <= i <= |slots|
    ensures i <= r <= |slots|
    ensures r < |slots| ==> !slots[r].inUse
    ensures forall k :: i <= k < r ==> slots[k].inUse
    decreases |slots| - i
  {
    if i == |slots| || !slots[i].inUse then i else FirstFree(slots, i + 1)
  }

  function NewSlot(s: State): State
    requires Shape(s)
  {
    var i := FirstFree(s.slots, 0);
    if i == SLOTS then s else s.(slots := s.slots[i := s.slots[i].(inUse := true, tcIndex := -1)])
  }

  predicate KnownHandle(handle: int) {
    20000 <= handle < 20032
  }

  /** Whether setting `pid` on `handle` is refused: the PID is collected already, or the handle
      is unknown or not in use. */
  predicate SetRefused(s: State, handle: int, pid: bv16)
    requires Shape(s)
  {
    pid in Visible(s.table, s.num) || !KnownHandle(handle) || !s.slots[handle - HANDLE_OFFSET].inUse
  }

  function SetEntry(s: State, handle: int, pid: bv16): State
    requires Shape(s) && KnownHandle(handle)
  {
    var i := handle - HANDLE_OFFSET;
    s.(slots := s.slots[i := s.slots[i].(pid := pid, tcIndex := s.num)], table := s.table[s.num := pid])
  }

  function SetPid(s: State, handle: int, pid: bv16): State
    requires Shape(s)
  {
    if SetRefused(s, handle, pid) then s
    else SetEntry(s, handle, pid).(num := s.num + 1)
  }

  predicate ClearRefused(s: State, i: int)
    requires Shape(s) && 0 <= i < SLOTS
  {
    s.slots[i].tcIndex < 0 || s.slots[i].pid == NO_PID
  }

  /** The last PID moved over the entry to be cleared. */
  function ClearEntry(s: State, i: int): State
    requires Shape(s) && 0 <= i < SLOTS && 0 <= s.slots[i].tcIndex < s.num
  {
    s.(table := s.table[s.slots[i].tcIndex := s.table[s.num - 1]])
  }

  /** Table and count after entry `k` is dropped. */
  function Dropped(s: State, k: int): State
    requires |s.table| == ENTRIES && 0 <= k < s.num < ENTRIES
  {
    s.(table := s.table[k := s.table[s.num - 1]], num := s.num - 1)
  }

  /** The first slot from `i` on that owns entry `k`, or SLOTS. */
  function OwnerFrom(slots: seq<Slot>, k: int, i: int): (r: int)
    requires 0 <= i <= |slots|
    ensures i <= r <= |slots|
    ensures r < |slots| ==> slots[r].tcIndex == k
    ensures forall j :: i <= j < r ==> slots[j].tcIndex != k
    decreases |slots| - i
  {
    if i == |slots| || slots[i].tcIndex == k then i else OwnerFrom(slots, k, i + 1)
  }

  function Retarget(slots: seq<Slot>, owner: int, i: int): seq<Slot>
    requires 0 <= i < |slots| && 0 <= owner <= |slots|
  {
    var moved := if owner == |slots| then slots else slots[owner := slots[owner].(tcIndex := slots[i].tcIndex)];
    moved[i := moved[i].(tcIndex := -1)]
  }

  function Cleared(s: State, i: int): State
    requires Shape(s) && 0 <= i < SLOTS && 0 <= s.slots[i].tcIndex < s.num
  {
    Dropped(s, s.slots[i].tcIndex).(slots := Retarget(s.slots, OwnerFrom(s.slots, s.num - 1, 0), i))
  }

  function ClearPid(s: State, i: int): State
    requires Loose(s) && 0 <= i < SLOTS
  {
    if ClearRefused(s, i) then s
    else
      assert SlotOk(s, i);
      Cleared(s, i)
  }

  function FreeSlot(s: State, i: int): State
    requires Loose(s) && 0 <= i < SLOTS
  {
    var t := if s.slots[i].tcIndex != -1 then ClearPid(s, i) else s;
    t.(slots := t.slots[i := t.slots[i].(inUse := false, pid := NO_PID, tcIndex := -1)])
  }

  // ---------------------------------------------------------------------------------------
  // What the operations keep
  // ---------------------------------------------------------------------------------------

  lemma {:induction false} DistinctBound(owner: seq<int>, bound: nat)
    requires forall k :: 0 <= k < |owner| ==> 0 <= owner[k] < bound
    requires forall j, k :: 0 <= j < k < |owner| ==> owner[j] != owner[k]
    ensures |owner| <= bound
    decreases bound
  {
    if |owner| > 0 {
      assert 0 <= owner[0] < bound;
      if exists k :: 0 <= k < |owner| && owner[k] == bound - 1 {
        var k :| 0 <= k < |owner| && owner[k] == bound - 1;
        DistinctBound(owner[..k] + owner[k + 1..], bound - 1);
      } else {
        DistinctBound(owner, bound - 1);
      }
    }
  }

  /** The table never holds more entries than there are slots. */
  lemma TableFits(s: State)
    requires Inv(s)
    ensures s.num <= 32
  {
    var owner := seq(s.num, k requires 0 <= k < s.num => OwnerFrom(s.slots, k, 0));
    DistinctBound(owner, SLOTS);
  }

  /** While one slot does not collect, the table holds fewer entries than there are slots. */
  lemma RoomForOne(s: State, i: int)
    requires Inv(s) && 0 <= i < SLOTS && !Collecting(s.slots[i])
    ensures s.num < SLOTS
  {
    // Were the free slot moved to the end, every owner would be below it.
    var owner := seq(s.num, k requires 0 <= k < s.num =>
      var j := OwnerFrom(s.slots, k, 0); if j == SLOTS - 1 then i else j);
    forall j, k | 0 <= j < k < s.num ensures owner[j] != owner[k] {
      assert OwnerFrom(s.slots, j, 0) != OwnerFrom(s.slots, k, 0);
    }
    DistinctBound(owner, SLOTS - 1);
  }

  lemma NewSlotKeepsInv(s: State)
    requires Inv(s)
    ensures Inv(NewSlot(s))
  {
    var i := FirstFree(s.slots, 0);
    if i < SLOTS {
      var t := NewSlot(s);
      assert SlotOk(s, i);
      forall j | 0 <= j < SLOTS ensures SlotOk(t, j) { assert SlotOk(s, j); }
      OwnersStay(s, t, s.num);
    }
  }

  /** Entries keep their owners where no owner's index changes. */
  lemma OwnersStay(s: State, t: State, n: int)
    requires Shape(s) && Shape(t) && n <= s.num
    requires forall k :: 0 <= k < s.num ==> OwnerFrom(s.slots, k, 0) < SLOTS
    requires forall i :: 0 <= i < SLOTS && 0 <= s.slots[i].tcIndex < n ==> t.slots[i].tcIndex == s.slots[i].tcIndex
    ensures forall k :: 0 <= k < n ==> OwnerFrom(t.slots, k, 0) < SLOTS
  {
    forall k | 0 <= k < n ensures OwnerFrom(t.slots, k, 0) < SLOTS {
      var i := OwnerFrom(s.slots, k, 0);
      assert t.slots[i].tcIndex == k;
    }
  }

  lemma SetOnIdleSlotKeepsInv(s: State, handle: int, pid: bv16)
    requires Inv(s) && !SetRefused(s, handle, pid)
    requires !Collecting(s.slots[handle - HANDLE_OFFSET]) && pid != NO_PID
    ensures Inv(SetPid(s, handle, pid))
  {
    var i, t := handle - HANDLE_OFFSET, SetPid(s, handle, pid);
    RoomForOne(s, i);
    forall j | 0 <= j < SLOTS ensures SlotOk(t, j) { assert SlotOk(s, j); }
    OwnersStay(s, t, s.num);
    forall k | 0 <= k < t.num ensures OwnerFrom(t.slots, k, 0) < SLOTS { assert t.slots[i].tcIndex == s.num; }
    forall k | 0 <= k < s.num ensures s.table[k] != pid { assert s.table[k] in Visible(s.table, s.num); }
    forall j, k | 0 <= j < k < SLOTS && Collecting(t.slots[j]) ensures t.slots[j].tcIndex != t.slots[k].tcIndex {
      assert SlotOk(s, j) && SlotOk(s, k);
    }
  }

  /** Setting a PID keeps the table consistent if and only if the call is refused, or the slot
      does not collect yet and the PID is not the marker for "none". */
  lemma SetKeepsInvExactly(s: State, handle: int, pid: bv16)
    requires Inv(s)
    ensures Inv(SetPid(s, handle, pid)) <==>
            SetRefused(s, handle, pid) || (!Collecting(s.slots[handle - HANDLE_OFFSET]) && pid != NO_PID)
  {
    if !SetRefused(s, handle, pid) {
      var i, t := handle - HANDLE_OFFSET, SetPid(s, handle, pid);
      if Collecting(s.slots[i]) {
        // The old entry of the slot is left without an owner.
        var k := s.slots[i].tcIndex;
        assert SlotOk(s, i);
        assert OwnerFrom(t.slots, k, 0) == SLOTS;
      } else if pid == NO_PID {
        if Shape(t) { assert !SlotOk(t, i); }
      } else {
        SetOnIdleSlotKeepsInv(s, handle, pid);
      }
    }
  }

  lemma ClearKeepsSlots(s: State, i: int)
    requires Inv(s) && 0 <= i < SLOTS && !ClearRefused(s, i)
    ensures var t := ClearPid(s, i); Shape(t) && forall j :: 0 <= j < SLOTS ==> SlotOk(t, j)
  {
    var t := ClearPid(s, i);
    assert SlotOk(s, i) && SlotOk(s, OwnerFrom(s.slots, s.num - 1, 0));
    forall j | 0 <= j < SLOTS ensures SlotOk(t, j) { assert SlotOk(s, j); }
  }

  lemma ClearKeepsOwners(s: State, i: int)
    requires Inv(s) && 0 <= i < SLOTS && !ClearRefused(s, i)
    ensures var t := ClearPid(s, i); |t.slots| == SLOTS && forall m :: 0 <= m < t.num ==> OwnerFrom(t.slots, m, 0) < SLOTS
  {
    var t, last := ClearPid(s, i), OwnerFrom(s.slots, s.num - 1, 0);
    assert SlotOk(s, i) && SlotOk(s, last);
    forall m | 0 <= m < t.num ensures OwnerFrom(t.slots, m, 0) < SLOTS {
      var j := if m == s.slots[i].tcIndex then last else OwnerFrom(s.slots, m, 0);
      assert t.slots[j].tcIndex == m;
    }
  }

  lemma ClearKeepsInv(s: State, i: int)
    requires Inv(s) && 0 <= i < SLOTS
    ensures Inv(ClearPid(s, i))
  {
    if !ClearRefused(s, i) {
      assert SlotOk(s, i) && SlotOk(s, OwnerFrom(s.slots, s.num - 1, 0));
      ClearKeepsSlots(s, i);
      ClearKeepsOwners(s, i);
    }
  }

  lemma FreeKeepsInv(s: State, i: int)
    requires Inv(s) && 0 <= i < SLOTS
    ensures Inv(FreeSlot(s, i))
  {
    assert SlotOk(s, i);
    ClearKeepsInv(s, i);
    var c := if s.slots[i].tcIndex != -1 then ClearPid(s, i) else s;
    var t := FreeSlot(s, i);
    assert c.slots[i].tcIndex == -1;
    forall j | 0 <= j < SLOTS ensures SlotOk(t, j) { assert SlotOk(c, j); }
    OwnersStay(c, t, c.num);
  }

  // ---------------------------------------------------------------------------------------
  // What the firmware can observe between the writes of one operation
  // ---------------------------------------------------------------------------------------

  lemma SetView(s: State, handle: int, pid: bv16)
    requires Inv(s) && !SetRefused(s, handle, pid) && !Collecting(s.slots[handle - HANDLE_OFFSET])
    ensures var mid := SetEntry(s, handle, pid); Visible(mid.table, mid.num) == Visible(s.table, s.num)
    ensures var t := SetPid(s, handle, pid); Visible(t.table, t.num) == Visible(s.table, s.num) + {pid}
  {
    RoomForOne(s, handle - HANDLE_OFFSET);
    var t := SetPid(s, handle, pid);
    assert t.table[s.num] == pid;
    assert forall k :: 0 <= k < s.num ==> t.table[k] == s.table[k];
  }

  lemma ClearView(s: State, i: int)
    requires Inv(s) && 0 <= i < SLOTS && !ClearRefused(s, i)
    ensures 0 <= s.slots[i].tcIndex < s.num
    ensures var mid := ClearEntry(s, i);
            Visible(s.table, s.num) - {s.slots[i].pid} <= Visible(mid.table, mid.num) <= Visible(s.table, s.num)
    ensures var t := ClearPid(s, i); Visible(t.table, t.num) == Visible(s.table, s.num) - {s.slots[i].pid}
  {
    assert SlotOk(s, i);
    var mid, t, k := ClearEntry(s, i), ClearPid(s, i), s.slots[i].tcIndex;
    forall p | p in Visible(s.table, s.num) - {s.slots[i].pid}
      ensures p in Visible(mid.table, mid.num) && p in Visible(t.table, t.num)
    {
      var j :| 0 <= j < s.num && s.table[j] == p;
      var m := if j == s.num - 1 then k else j;
      assert mid.table[m] == p;
    }
  }

  // ---------------------------------------------------------------------------------------
  // Refinement: the compact table with swap-with-last removal is a map from slots to PIDs
  // ---------------------------------------------------------------------------------------

  datatype Abstract = Abstract(used: set<int>, pids: map<int, bv16>)

  function Abs(s: State): Abstract
    requires Shape(s)
  {
    Abstract(set i | 0 <= i < SLOTS && s.slots[i].inUse,
             map i | 0 <= i < SLOTS && Collecting(s.slots[i]) :: s.slots[i].pid)
  }

  datatype Op = New | Set(handle: int, pid: bv16) | Clear(handle: int) | Free(handle: int)

  function LeastUnused(used: set<int>, i: int): int
    requires 0 <= i <= SLOTS
    decreases SLOTS - i
  {
    if i == SLOTS || i !in used then i else LeastUnused(used, i + 1)
  }

  /** Clearing and freeing index the slots by the handle, unchecked. */
  predicate KnownOp(op: Op) {
    (op.Clear? || op.Free?) ==> KnownHandle(op.handle)
  }

  function AbstractStep(a: Abstract, op: Op): Abstract {
    match op
    case New =>
      var i := LeastUnused(a.used, 0);
      if i == SLOTS then a else a.(used := a.used + {i})
    case Set(handle, pid) =>
      var i := handle - HANDLE_OFFSET;
      if pid in a.pids.Values || !KnownHandle(handle) || i !in a.used then a else a.(pids := a.pids[i := pid])
    case Clear(handle) => a.(pids := a.pids - {handle - HANDLE_OFFSET})
    case Free(handle) => Abstract(a.used - {handle - HANDLE_OFFSET}, a.pids - {handle - HANDLE_OFFSET})
  }

  /** What the callers of the driver owe it: slot handles it gave out, and no PID for a slot that
      has one already. */
  predicate Admissible(s: State, op: Op)
    requires Shape(s)
  {
    match op
    case New => true
    case Set(handle, pid) =>
      SetRefused(s, handle, pid) || (!Collecting(s.slots[handle - HANDLE_OFFSET]) && pid != NO_PID)
    case Clear(handle) => KnownHandle(handle)
    case Free(handle) => KnownHandle(handle)
  }

  function Step(s: State, op: Op): State
    requires Loose(s) && KnownOp(op)
  {
    match op
    case New => NewSlot(s)
    case Set(handle, pid) => SetPid(s, handle, pid)
    case Clear(handle) => ClearPid(s, handle - HANDLE_OFFSET)
    case Free(handle) => FreeSlot(s, handle - HANDLE_OFFSET)
  }

  lemma VisibleAreTheSlotPids(s: State)
    requires Inv(s)
    ensures Visible(s.table, s.num) == Abs(s).pids.Values
  {
    forall p | p in Visible(s.table, s.num) ensures p in Abs(s).pids.Values {
      var k :| 0 <= k < s.num && s.table[k] == p;
      var i := OwnerFrom(s.slots, k, 0);
      assert SlotOk(s, i) && i in Abs(s).pids && Abs(s).pids[i] == p;
    }
    forall p | p in Abs(s).pids.Values ensures p in Visible(s.table, s.num) {
      var i :| i in Abs(s).pids && Abs(s).pids[i] == p;
      assert SlotOk(s, i);
    }
  }

  lemma {:induction false} LeastUnusedIsFirstFree(s: State, i: int)
    requires Shape(s) && 0 <= i <= SLOTS
    ensures LeastUnused(Abs(s).used, i) == FirstFree(s.slots, i)
    decreases SLOTS - i
  {
    if i < SLOTS && i in Abs(s).used { LeastUnusedIsFirstFree(s, i + 1); }
  }

  lemma ClearRemovesOnlyItsPid(s: State, i: int)
    requires Inv(s) && 0 <= i < SLOTS
    ensures Shape(ClearPid(s, i)) && Abs(ClearPid(s, i)) == Abstract(Abs(s).used, Abs(s).pids - {i})
  {
    assert SlotOk(s, i);
    var t := ClearPid(s, i);
    forall j | 0 <= j < SLOTS
      ensures t.slots[j].inUse == s.slots[j].inUse && t.slots[j].pid == s.slots[j].pid
      ensures Collecting(t.slots[j]) <==> Collecting(s.slots[j]) && j != i
    {
      assert SlotOk(s, j);
    }
    assert Abs(t).used == Abs(s).used;
    assert Abs(t).pids == Abs(s).pids - {i};
  }

  lemma NewSlotRefines(s: State)
    requires Inv(s)
    ensures Inv(NewSlot(s)) && Abs(NewSlot(s)) == AbstractStep(Abs(s), New)
  {
    NewSlotKeepsInv(s);
    LeastUnusedIsFirstFree(s, 0);
    var t, a, i := NewSlot(s), AbstractStep(Abs(s), New), FirstFree(s.slots, 0);
    if i < SLOTS { assert SlotOk(s, i); }
    assert Abs(t).used == a.used && Abs(t).pids == a.pids;
  }

  lemma SetRefines(s: State, handle: int, pid: bv16)
    requires Inv(s) && Admissible(s, Set(handle, pid))
    ensures Inv(SetPid(s, handle, pid)) && Abs(SetPid(s, handle, pid)) == AbstractStep(Abs(s), Set(handle, pid))
  {
    SetKeepsInvExactly(s, handle, pid);
    VisibleAreTheSlotPids(s);
    var t, a := SetPid(s, handle, pid), AbstractStep(Abs(s), Set(handle, pid));
    assert Abs(t).used == a.used && Abs(t).pids == a.pids;
  }

  lemma FreeAfterClear(c: State, t: State, i: int)
    requires Inv(c) && 0 <= i < SLOTS && c.slots[i].tcIndex == -1
    requires t == c.(slots := c.slots[i := c.slots[i].(inUse := false, pid := NO_PID)])
    ensures Shape(t) && Abs(t) == Abstract(Abs(c).used - {i}, Abs(c).pids - {i})
  {
  }

  lemma FreeRefines(s: State, i: int)
    requires Inv(s) && 0 <= i < SLOTS
    ensures Inv(FreeSlot(s, i)) && Abs(FreeSlot(s, i)) == AbstractStep(Abs(s), Free(HANDLE_OFFSET + i))
  {
    FreeKeepsInv(s, i);
    ClearKeepsInv(s, i);
    ClearRemovesOnlyItsPid(s, i);
    assert SlotOk(s, i);
    var c := if s.slots[i].tcIndex != -1 then ClearPid(s, i) else s;
    FreeAfterClear(c, FreeSlot(s, i), i);
    assert Abs(c).pids - {i} == Abs(s).pids - {i};
  }

  lemma ClearRefines(s: State, i: int)
    requires Inv(s) && 0 <= i < SLOTS
    ensures Inv(ClearPid(s, i)) && Abs(ClearPid(s, i)) == AbstractStep(Abs(s), Clear(HANDLE_OFFSET + i))
  {
    ClearKeepsInv(s, i);
    ClearRemovesOnlyItsPid(s, i);
  }

  lemma StepRefines(s: State, op: Op)
    requires Inv(s) && Admissible(s, op)
    ensures Inv(Step(s, op))
    ensures Abs(Step(s, op)) == AbstractStep(Abs(s), op)
  {
    match op
    case New => NewSlotRefines(s);
    case Set(handle, pid) => SetRefines(s, handle, pid);
    case Clear(handle) => ClearRefines(s, handle - HANDLE_OFFSET);
    case Free(handle) => FreeRefines(s, handle - HANDLE_OFFSET);
  }

  ghost predicate AdmissibleRun(s: State, ops: seq<Op>)
    requires Inv(s)
    decreases |ops|
  {
    ops == [] || (Admissible(s, ops[0]) && (StepRefines(s, ops[0]); AdmissibleRun(Step(s, ops[0]), ops[1..])))
  }

  ghost function Run(s: State, ops: seq<Op>): State
    requires Inv(s) && AdmissibleRun(s, ops)
    decreases |ops|
  {
    if ops == [] then s else StepRefines(s, ops[0]); Run(Step(s, ops[0]), ops[1..])
  }

  function AbstractRun(a: Abstract, ops: seq<Op>): Abstract
    decreases |ops|
  {
    if ops == [] then a else AbstractRun(AbstractStep(a, ops[0]), ops[1..])
  }

  /** In every admissible run the bijection holds at the end, and the PIDs the firmware collects
      are those of the abstract map. */
  lemma {:induction false} RunRefines(s: State, ops: seq<Op>)
    requires Inv(s) && AdmissibleRun(s, ops)
    ensures Inv(Run(s, ops))
    ensures Abs(Run(s, ops)) == AbstractRun(Abs(s), ops)
    ensures Visible(Run(s, ops).table, Run(s, ops).num) == AbstractRun(Abs(s), ops).pids.Values
    decreases |ops|
  {
    if ops == [] {
      VisibleAreTheSlotPids(s);
    } else {
      StepRefines(s, ops[0]);
      RunRefines(Step(s, ops[0]), ops[1..]);
    }
  }

  /** Calls must not overlap: two sets of which each sleeps between its write to the table and its
      write to the count end with both slots on one entry, and the bijection is gone. */
  lemma OverlappingSetsCollide(s: State, i: int, j: int, p: bv16, q: bv16)
    requires Inv(s) && 0 <= i < SLOTS && 0 <= j < SLOTS && i != j
    requires !SetRefused(s, HANDLE_OFFSET + i, p) && !SetRefused(s, HANDLE_OFFSET + j, q)
    ensures var first := SetEntry(s, HANDLE_OFFSET + i, p);
            && Shape(first) && !SetRefused(first, HANDLE_OFFSET + j, q)
            && var second := SetEntry(first, HANDLE_OFFSET + j, q);
               !Inv(second.(num := second.num + 2)) && second.slots[i].tcIndex == second.slots[j].tcIndex
  {
    var first := SetEntry(s, HANDLE_OFFSET + i, p);
    assert Visible(first.table, first.num) == Visible(s.table, s.num) by {
      assert forall k :: 0 <= k < s.num ==> first.table[k] == s.table[k];
    }
    var t := SetEntry(first, HANDLE_OFFSET + j, q).(num := s.num + 2);
    assert t.slots[i].tcIndex == t.slots[j].tcIndex == s.num;
    if Shape(t) { assert Collecting(t.slots[i]) && Collecting(t.slots[j]); }
  }

  // ---------------------------------------------------------------------------------------
  // What becomes of a slot that is given a second PID
  // ---------------------------------------------------------------------------------------

  /** A PID in the table that no slot collects. */
  predicate Orphan(s: State, pid: bv16)
    requires Shape(s)
  {
    pid in Visible(s.table, s.num) && forall i :: 0 <= i < SLOTS && Collecting(s.slots[i]) ==> s.slots[i].pid != pid
  }

  /** Any call: on any slot, as long as the table has room and the PID is one. */
  predicate Possible(s: State, op: Op)
    requires Shape(s)
  {
    KnownOp(op) && (op.Set? && !SetRefused(s, op.handle, op.pid) ==> s.num + 1 < ENTRIES && op.pid != NO_PID)
  }

  lemma NewKeepsOrphan(s: State, pid: bv16)
    requires Loose(s) && Orphan(s, pid)
    ensures Loose(NewSlot(s)) && Orphan(NewSlot(s), pid)
  {
    var t, i := NewSlot(s), FirstFree(s.slots, 0);
    if i < SLOTS { assert SlotOk(s, i); }
    forall j | 0 <= j < SLOTS ensures SlotOk(t, j) { assert SlotOk(s, j); }
  }

  lemma SetStaysLoose(s: State, handle: int, pid: bv16)
    requires Loose(s) && Possible(s, Set(handle, pid)) && !SetRefused(s, handle, pid)
    ensures Loose(SetPid(s, handle, pid))
  {
    var t, i := SetPid(s, handle, pid), handle - HANDLE_OFFSET;
    forall j | 0 <= j < SLOTS ensures SlotOk(t, j) && (j != i ==> t.slots[j].tcIndex < s.num) { assert SlotOk(s, j); }
    assert t.slots[i].tcIndex == s.num;
  }

  lemma SetKeepsOrphans(s: State, handle: int, pid: bv16)
    requires Loose(s) && Possible(s, Set(handle, pid)) && !SetRefused(s, handle, pid)
    ensures var t := SetPid(s, handle, pid);
            && Shape(t) && (forall p :: Orphan(s, p) ==> Orphan(t, p))
            && (Collecting(s.slots[handle - HANDLE_OFFSET]) ==> Orphan(t, s.slots[handle - HANDLE_OFFSET].pid))
  {
    var t, i := SetPid(s, handle, pid), handle - HANDLE_OFFSET;
    assert SlotOk(s, i);
    assert Visible(t.table, t.num) == Visible(s.table, s.num) + {pid} by {
      assert forall k :: 0 <= k < s.num ==> t.table[k] == s.table[k];
      assert t.table[s.num] == pid;
    }
    if Collecting(s.slots[i]) {
      assert s.slots[i].pid == s.table[s.slots[i].tcIndex];
      forall j | 0 <= j < SLOTS && Collecting(t.slots[j]) ensures t.slots[j].pid != s.slots[i].pid {
        assert SlotOk(s, j);
      }
    }
  }

  lemma ClearStaysLoose(s: State, i: int)
    requires Loose(s) && 0 <= i < SLOTS && !ClearRefused(s, i)
    ensures Loose(ClearPid(s, i))
  {
    var t, last := ClearPid(s, i), OwnerFrom(s.slots, s.num - 1, 0);
    assert SlotOk(s, i) && (last < SLOTS ==> SlotOk(s, last));
    forall j | 0 <= j < SLOTS ensures SlotOk(t, j) { assert SlotOk(s, j); }
  }

  lemma ClearKeepsOrphan(s: State, i: int, pid: bv16)
    requires Loose(s) && 0 <= i < SLOTS && Orphan(s, pid)
    ensures Loose(ClearPid(s, i)) && Orphan(ClearPid(s, i), pid)
  {
    if !ClearRefused(s, i) {
      ClearStaysLoose(s, i);
      assert SlotOk(s, i);
      var t, k :| t == ClearPid(s, i) && 0 <= k < s.num && s.table[k] == pid;
      assert k != s.slots[i].tcIndex;
      assert pid == t.table[if k == s.num - 1 then s.slots[i].tcIndex else k];
    }
  }

  lemma FreeKeepsOrphan(s: State, i: int, pid: bv16)
    requires Loose(s) && 0 <= i < SLOTS && Orphan(s, pid)
    ensures Loose(FreeSlot(s, i)) && Orphan(FreeSlot(s, i), pid)
  {
    ClearKeepsOrphan(s, i, pid);
    assert SlotOk(s, i);
    var c, t := if s.slots[i].tcIndex != -1 then ClearPid(s, i) else s, FreeSlot(s, i);
    forall j | 0 <= j < SLOTS ensures SlotOk(t, j) { assert SlotOk(c, j); }
  }

  lemma StepKeepsOrphan(s: State, op: Op, pid: bv16)
    requires Loose(s) && Orphan(s, pid) && Possible(s, op)
    ensures Loose(Step(s, op)) && Orphan(Step(s, op), pid)
  {
    match op
    case New => NewKeepsOrphan(s, pid);
    case Set(handle, p) => if !SetRefused(s, handle, p) { SetStaysLoose(s, handle, p); SetKeepsOrphans(s, handle, p); }
    case Clear(handle) => ClearKeepsOrphan(s, handle - HANDLE_OFFSET, pid);
    case Free(handle) => FreeKeepsOrphan(s, handle - HANDLE_OFFSET, pid);
  }

  ghost predicate Runs(s: State, ops: seq<Op>, t: State)
    decreases |ops|
  {
    if ops == [] then s == t else Loose(s) && Possible(s, ops[0]) && Runs(Step(s, ops[0]), ops[1..], t)
  }

  lemma {:induction false} OrphanStays(s: State, ops: seq<Op>, t: State, pid: bv16)
    requires Loose(s) && Orphan(s, pid) && Runs(s, ops, t)
    ensures Loose(t) && Orphan(t, pid) && !Inv(t)
    decreases |ops|
  {
    if ops != [] {
      StepKeepsOrphan(s, ops[0], pid);
      OrphanStays(Step(s, ops[0]), ops[1..], t, pid);
    } else {
      OrphanBreaksInv(s, pid);
    }
  }

  lemma OrphanBreaksInv(s: State, pid: bv16)
    requires Loose(s) && Orphan(s, pid)
    ensures !Inv(s)
  {
    var k :| 0 <= k < s.num && s.table[k] == pid;
    assert OwnerFrom(s.slots, k, 0) == SLOTS by {
      forall i | 0 <= i < SLOTS ensures s.slots[i].tcIndex != k { assert SlotOk(s, i); }
    }
  }

  /** A slot that is given a second PID leaves its first one in the table for good: whatever calls
      follow, on whatever slots, the firmware goes on collecting it, and no slot is responsible. */
  lemma SecondPidIsNeverCleared(s: State, i: int, pid: bv16, ops: seq<Op>, t: State)
    requires Inv(s) && 0 <= i < SLOTS && Collecting(s.slots[i]) && pid !in Visible(s.table, s.num) && pid != NO_PID
    requires Runs(SetPid(s, HANDLE_OFFSET + i, pid), ops, t)
    ensures Shape(t) && Orphan(t, s.slots[i].pid) && !Inv(t)
  {
    TableFits(s);
    assert SlotOk(s, i);
    SetStaysLoose(s, HANDLE_OFFSET + i, pid);
    SetKeepsOrphans(s, HANDLE_OFFSET + i, pid);
    OrphanStays(SetPid(s, HANDLE_OFFSET + i, pid), ops, t, s.slots[i].pid);
  }

  // ---------------------------------------------------------------------------------------
  // The driver's own code
  // ---------------------------------------------------------------------------------------

  class Controller {
    const words: array<bv32>
    const slots: array<Slot>
    /** What the firmware sees in the table after each single write of the driver. */
    ghost var seen: seq<set<bv16>>

    ghost predicate Allocated() {
      words.Length == DRAM_WORDS && slots.Length == SLOTS
    }

    ghost function View(): State
      reads this, words, slots
      requires Allocated()
    {
      State(slots[..], TableOf(words[..]), NumOf(words[..]))
    }

    ghost predicate Valid()
      reads this, words, slots
    {
      Allocated() && Inv(View())
    }

    constructor ()
      ensures Valid() && fresh(words) && fresh(slots) && seen == []
      ensures Abs(View()) == Abstract({}, map[])
    {
      words := new bv32[DRAM_WORDS](_ => 0);
      slots := new Slot[SLOTS](i => Slot(HANDLE_OFFSET + i, false, -1, NO_PID));
      seen := [];
      new;
      assert Half(words[..], NUM_PIDS) == 0;
      assert Abs(View()).used == {} && Abs(View()).pids == map[];
    }

    method PtiWrite(addr: int, value: bv16)
      requires Allocated() && IsHalfword(addr)
      modifies words, this`seen
      ensures words[..] == Written(old(words[..]), addr, value)
      ensures seen == old(seen) + [Visible(TableOf(words[..]), NumOf(words[..]))]
    {
      var w := (addr - DRAM_BASE) / 4;
      var value32 := words[w];
      if addr % 4 == 2 {
        value32 := (value32 & 0x0000ffff) | ((value as bv32) << 16);
      } else {
        value32 := (value32 & 0xffff0000) | (value as bv32);
      }
      words[w] := value32;
      seen := seen + [Visible(TableOf(words[..]), NumOf(words[..]))];
    }

    method GetNewSlotHandle() returns (handle: int)
      requires Valid()
      modifies slots
      ensures View() == NewSlot(old(View())) && Valid()
      ensures var i := FirstFree(old(slots[..]), 0);
              handle == if i == 32 then -1 else 20000 + i
    {
      NewSlotKeepsInv(View());
      for i := 0 to SLOTS
        invariant slots[..] == old(slots[..]) && forall k :: 0 <= k < i ==> slots[k].inUse
      {
        if !slots[i].inUse {
          slots[i] := slots[i].(inUse := true, tcIndex := -1);
          return slots[i].handle;
        }
      }
      return -1;
    }

    method Entry(i: int) returns (pid: bv16)
      requires Allocated() && 0 <= i < ENTRIES
      ensures pid == View().table[i]
    {
      pid := Half(words[..], PIDTABLE + 2 * i);
    }

    method NumPids() returns (n: int)
      requires Allocated()
      ensures n == View().num
    {
      n := NumOf(words[..]);
    }

    method WriteTableEntry(i: int, pid: bv16)
      requires Allocated() && 0 <= i < ENTRIES
      modifies words, this`seen
      ensures View() == old(View()).(table := old(View()).table[i := pid])
      ensures seen == old(seen) + [Visible(View().table, View().num)]
      ensures Untouched(old(words[..]), words[..])
    {
      WriteEntry(words[..], i, pid);
      WriteStaysInside(words[..], PIDTABLE + 2 * i, pid);
      PtiWrite(PIDTABLE + 2 * i, pid);
    }

    method WriteCount(n: int)
      requires Allocated() && 0 <= n <= ENTRIES
      modifies words, this`seen
      ensures View() == old(View()).(num := n)
      ensures seen == old(seen) + [Visible(View().table, View().num)]
      ensures Untouched(old(words[..]), words[..])
    {
      WriteNum(words[..], n);
      WriteStaysInside(words[..], NUM_PIDS, n as bv16);
      PtiWrite(NUM_PIDS, n as bv16);
    }

    method IsCollected(pid: bv16) returns (found: bool)
      requires Valid()
      ensures found <==> pid in Visible(View().table, View().num)
    {
      ghost var s := View();
      var n := NumOf(words[..]);
      for i := 0 to n
        invariant pid !in Visible(s.table, i)
      {
        var entry := Entry(i);
        if entry == pid { return true; }
      }
      return false;
    }

    method Collect(i: int, pid: bv16)
      requires Allocated() && Shape(View()) && 0 <= i < SLOTS
      modifies words, slots, this`seen
      ensures View() == SetEntry(old(View()), HANDLE_OFFSET + i, pid).(num := old(View()).num + 1)
      ensures var mid := SetEntry(old(View()), HANDLE_OFFSET + i, pid);
              seen == old(seen) + [Visible(mid.table, mid.num), Visible(View().table, View().num)]
      ensures Untouched(old(words[..]), words[..])
    {
      var n := NumOf(words[..]);
      slots[i] := slots[i].(pid := pid);
      slots[i] := slots[i].(tcIndex := n);
      ghost var before := words[..];
      WriteTableEntry(n, pid);
      ghost var between := words[..];
      WriteCount(n + 1);
      UntouchedTwice(before, between, words[..]);
    }

    method SlotSetPid(handle: int, pid: bv16) returns (r: int)
      requires Valid()
      modifies words, slots, this`seen
      ensures View() == SetPid(old(View()), handle, pid)
      ensures r == if SetRefused(old(View()), handle, pid) then -1 else 0
      ensures Valid() <==> Admissible(old(View()), Set(handle, pid))
      ensures Untouched(old(words[..]), words[..])
      ensures Valid() ==> old(seen) <= seen && forall v :: v in seen[|old(seen)|..] ==>
                Visible(old(View()).table, old(View()).num) <= v <= Visible(View().table, View().num)
    {
      ghost var s := View();
      SetKeepsInvExactly(s, handle, pid);
      var collected := IsCollected(pid);
      if collected { return -1; }
      for i := 0 to SLOTS
        invariant handle - HANDLE_OFFSET < 0 || handle - HANDLE_OFFSET >= i
      {
        if slots[i].handle == handle {
          if !slots[i].inUse { return -1; }
          Collect(i, pid);
          if !Collecting(s.slots[i]) { SetView(s, handle, pid); }
          return 0;
        }
      }
      return -1;
    }

    /** The two writes of a removal: the last PID over entry `k`, then the count. */
    method DropEntry(k: int)
      requires Allocated() && 0 <= k < View().num < ENTRIES
      modifies words, this`seen
      ensures View() == Dropped(old(View()), k)
      ensures seen == old(seen) + [Visible(View().table, View().num + 1), Visible(View().table, View().num)]
      ensures Untouched(old(words[..]), words[..])
    {
      ghost var s, before := View(), words[..];
      var n := NumPids();
      var last := Entry(n - 1);
      WriteTableEntry(k, last);
      ghost var t, between := View(), words[..];
      assert t == s.(table := s.table[k := last]) && t.num == n;
      WriteCount(n - 1);
      assert View() == t.(num := n - 1);
      UntouchedTwice(before, between, words[..]);
    }

    method Uncollect(slot: int)
      requires Allocated() && Shape(View()) && 0 <= slot < SLOTS && 0 <= slots[slot].tcIndex < View().num
      modifies words, slots, this`seen
      ensures View() == Cleared(old(View()), slot)
      ensures seen == old(seen) + [Visible(View().table, View().num + 1), Visible(View().table, View().num)]
      ensures Untouched(old(words[..]), words[..])
    {
      DropEntry(slots[slot].tcIndex);
      MoveOwner(NumOf(words[..]), slot);
    }

    method SlotClearPid(handle: int) returns (r: int)
      requires Valid() && KnownHandle(handle)
      modifies words, slots, this`seen
      ensures View() == ClearPid(old(View()), handle - HANDLE_OFFSET) && Valid()
      ensures r == if ClearRefused(old(View()), handle - HANDLE_OFFSET) then -1 else 0
      ensures Untouched(old(words[..]), words[..])
      ensures old(seen) <= seen && forall v :: v in seen[|old(seen)|..] ==>
                Visible(View().table, View().num) <= v <= Visible(old(View()).table, old(View()).num)
    {
      var slot := handle - HANDLE_OFFSET;
      ghost var s := View();
      ClearKeepsInv(s, slot);
      if slots[slot].tcIndex < 0 || slots[slot].pid == NO_PID { return -1; }
      ClearView(s, slot);
      Uncollect(slot);
      return 0;
    }

    /** Gives the entry of `slot` to the slot that owns entry `k`. */
    method MoveOwner(k: int, slot: int)
      requires Allocated() && 0 <= slot < SLOTS
      modifies slots
      ensures slots[..] == Retarget(old(slots[..]), OwnerFrom(old(slots[..]), k, 0), slot)
    {
      var i := 0;
      while i < SLOTS
        invariant 0 <= i <= SLOTS && slots[..] == old(slots[..])
        invariant forall j :: 0 <= j < i ==> slots[j].tcIndex != k
      {
        if slots[i].tcIndex == k {
          slots[i] := slots[i].(tcIndex := slots[slot].tcIndex);
          break;
        }
        i := i + 1;
      }
      slots[slot] := slots[slot].(tcIndex := -1);
    }

    method Reset(slot: int)
      requires Allocated() && 0 <= slot < SLOTS
      modifies slots
      ensures slots[..] == old(slots[..])[slot := old(slots[slot]).(inUse := false, pid := NO_PID, tcIndex := -1)]
    {
      slots[slot] := slots[slot].(inUse := false);
      slots[slot] := slots[slot].(pid := NO_PID);
      slots[slot] := slots[slot].(tcIndex := -1);
    }

    method ClearIfSet(handle: int)
      requires Valid() && KnownHandle(handle)
      modifies words, slots, this`seen
      ensures var i := handle - HANDLE_OFFSET;
              View() == if old(View()).slots[i].tcIndex != -1 then ClearPid(old(View()), i) else old(View())
      ensures Untouched(old(words[..]), words[..])
      ensures old(seen) <= seen && forall v :: v in seen[|old(seen)|..] ==>
                Visible(View().table, View().num) <= v <= Visible(old(View()).table, old(View()).num)
    {
      if slots[handle - HANDLE_OFFSET].tcIndex != -1 {
        var _ := SlotClearPid(handle);
      }
    }

    method SlotFree(handle: int) returns (r: int)
      requires Valid() && KnownHandle(handle)
      modifies words, slots, this`seen
      ensures View() == FreeSlot(old(View()), handle - HANDLE_OFFSET) && Valid()
      ensures r == 0 && !slots[handle - HANDLE_OFFSET].inUse
      ensures Untouched(old(words[..]), words[..])
      ensures old(seen) <= seen && forall v :: v in seen[|old(seen)|..] ==>
                Visible(View().table, View().num) <= v <= Visible(old(View()).table, old(View()).num)
    {
      FreeKeepsInv(View(), handle - HANDLE_OFFSET);
      ClearIfSet(handle);
      ghost var c := View();
      Reset(handle - HANDLE_OFFSET);
      assert View() == c.(slots := slots[..]);
      return 0;
    }
  }
}
