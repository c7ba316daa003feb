/** Quiescent-state-based reclamation: any number of readers and one waiter, one atomic access at a time. */
module Qsbr {
  import opened Hiding

  type Ref = nat

  const SHARDS := 32
  const CAPACITY := 23

  datatype Slot = Slot(shard: nat, pos: nat)

  /** What a pointer cell holds: nothing yet, the address of q->target, or a reader's ref. */
  datatype Cell = Null | Target | Of(ref: Ref)

  /** Where a reader is; each name is the access it makes next. */
  datatype Pc =
    | Out                                         // not registered
    | Load                                        // register: load the shard's bitmap
    | Claim(bits: set<nat>, flag: bool)           // register: compare-exchange the bitmap
    | Publish(slot: Slot)                         // register: store the ref
    | Active(slot: Slot)
    | Parked(slot: Slot)
    | Retract(slot: Slot)                         // unregister: store q->target
    | Release(slot: Slot)                         // unregister: clear the bit
    | Leave(shard: nat)                           // unregister: wait for the waiter to leave the shard

  /** Where the waiter is. */
  datatype WaiterPc =
    | Idle
    | SetTarget
    | Snapshot(next: nat)                         // load the bitmap of shard next
    | Choose                                      // pick the next shard with slots left, or return
    | Inside(shard: nat, rest: set<Slot>, entered: set<Slot>)   // flag set; slots to look at; bits seen on entry
    | Deref(slot: Slot, cell: Cell, rest: set<Slot>, entered: set<Slot>)  // pointer loaded; load its qstate

  datatype State = State(
    bits: set<Slot>, flags: set<nat>, cells: map<Slot, Cell>, qstate: map<Ref, int>, target: int,
    pcs: map<Ref, Pc>, waiter: WaiterPc,
    goal: int,             // the waiter's argument
    taken: set<Slot>,      // slots in its snapshot
    left: set<Slot>,       // those not yet confirmed
    watched: set<Slot>,    // history: slots marked when the wait began
    quiet: set<Slot>)      // history: slots that were quiescent at some instant since the wait began

  /** The shard of a reader: some hash of its address. */
  type Placement = Ref -> nat

  function CellAt(s: State, slot: Slot): Cell {
    if slot in s.cells then s.cells[slot] else Null
  }

  function QState(s: State, r: Ref): int {
    if r in s.qstate then s.qstate[r] else 0
  }

  function PcOf(s: State, r: Ref): Pc {
    if r in s.pcs then s.pcs[r] else Out
  }

  function Bitmap(s: State, shard: nat): set<nat> {
    set p: nat | p < CAPACITY && Slot(shard, p) in s.bits
  }

  function SlotsOf(bits: set<Slot>, shard: nat): set<Slot> {
    set x | x in bits && x.shard == shard
  }

  /** The lowest clear bit; CAPACITY when the shard is full. */
  function FirstFree(bits: set<nat>, n: nat): (p: nat)
    requires n <= CAPACITY
    ensures n <= p <= CAPACITY && (p < CAPACITY ==> p !in bits)
    decreases CAPACITY - n
  {
    if n == CAPACITY || n !in bits then n else FirstFree(bits, n + 1)
  }

  // ---- steps ----

  datatype Act =
    | Register(r: Ref) | Advance(r: Ref, spurious: bool)
    | Update(r: Ref, v: int) | Park(r: Ref) | Resume(r: Ref) | Unregister(r: Ref)
    | Wait(v: int) | WaiterStep(pick: Slot)

  /** A reader's next access inside register or unregister. */
  function AdvanceRef(s: State, place: Placement, r: Ref, spurious: bool): State {
    var shard := place(r) % SHARDS;
    match PcOf(s, r)
    case Load =>
      var bits := Bitmap(s, shard);
      s.(pcs := s.pcs[r := if FirstFree(bits, 0) == CAPACITY then Out else Claim(bits, shard in s.flags)])
    case Claim(bits, flag) =>
      var slot := Slot(shard, FirstFree(bits, 0));
      if Bitmap(s, shard) == bits && (shard in s.flags <==> flag) && !spurious
      then s.(bits := s.bits + {slot}, pcs := s.pcs[r := Publish(slot)])
      else s.(pcs := s.pcs[r := Load])
    case Publish(slot) => s.(cells := s.cells[slot := Of(r)], pcs := s.pcs[r := Active(slot)])
    case Retract(slot) => s.(cells := s.cells[slot := Target], pcs := s.pcs[r := Release(slot)])
    case Release(slot) => s.(bits := s.bits - {slot}, pcs := s.pcs[r := Leave(slot.shard)])
    case Leave(i) => if i in s.flags then s else s.(pcs := s.pcs[r := Out])
    case _ => s
  }

  /** The waiter's next access; pick is the slot or shard it turns to where the order does not matter. */
  function AdvanceWaiter(s: State, pick: Slot): State {
    match s.waiter
    case Idle => s
    case SetTarget => s.(target := s.goal, waiter := Snapshot(0))
    case Snapshot(i) =>
      if i < SHARDS
      then s.(taken := s.taken + SlotsOf(s.bits, i), left := s.left + SlotsOf(s.bits, i), waiter := Snapshot(i + 1))
      else s.(waiter := Choose)
    case Choose =>
      if s.left == {} then s.(waiter := Idle)
      else if pick in s.left
      then s.(flags := s.flags + {pick.shard}, waiter := Inside(pick.shard, SlotsOf(s.left, pick.shard), SlotsOf(s.bits, pick.shard)))
      else s
    case Inside(i, rest, entered) =>
      if rest == {} then s.(flags := s.flags - {i}, waiter := Choose)
      else if pick !in rest then s
      else if pick !in entered then s.(left := s.left - {pick}, waiter := Inside(i, rest - {pick}, entered))
      else s.(waiter := Deref(pick, CellAt(s, pick), rest - {pick}, entered))
    case Deref(slot, cell, rest, entered) =>
      var reached := (cell == Target && s.target == s.goal) || (cell.Of? && QState(s, cell.ref) == s.goal);
      s.(left := if reached then s.left - {slot} else s.left, waiter := Inside(slot.shard, rest, entered))
  }

  function Apply(s: State, place: Placement, act: Act): State {
    match act
    case Register(r) =>
      if PcOf(s, r).Out? then s.(qstate := s.qstate[r := 0], pcs := s.pcs[r := Load]) else s
    case Advance(r, spurious) => AdvanceRef(s, place, r, spurious)
    case Update(r, v) => if PcOf(s, r).Active? then s.(qstate := s.qstate[r := v]) else s
    case Park(r) =>
      if PcOf(s, r).Active? then s.(cells := s.cells[PcOf(s, r).slot := Target], pcs := s.pcs[r := Parked(PcOf(s, r).slot)]) else s
    case Resume(r) =>
      if PcOf(s, r).Parked? then s.(cells := s.cells[PcOf(s, r).slot := Of(r)], pcs := s.pcs[r := Active(PcOf(s, r).slot)]) else s
    case Unregister(r) =>
      if PcOf(s, r).Active? || PcOf(s, r).Parked? then s.(pcs := s.pcs[r := Retract(PcOf(s, r).slot)]) else s
    case Wait(v) =>
      if s.waiter.Idle? then s.(goal := v, taken := {}, left := {}, watched := s.bits, quiet := {}, waiter := SetTarget) else s
    case WaiterStep(pick) => AdvanceWaiter(s, pick)
  }

  /** No unparked reader registered at the slot is behind the waiter's target. */
  predicate Quiescent(s: State, slot: Slot) {
    forall r | r in s.pcs :: s.pcs[r] == Active(slot) ==> QState(s, r) == s.goal
  }

  /** One step of the system; the history notes which slots of interest are quiescent afterwards. */
  function Next(s: State, place: Placement, act: Act): State {
    var s' := Apply(s, place, act);
    s'.(quiet := s'.quiet + set x | x in s'.taken + s'.watched && Quiescent(s', x))
  }

  // ---- the invariant ----

  /** The slot a registered reader occupies. */
  predicate Occupies(pc: Pc, slot: Slot) {
    (pc.Publish? || pc.Active? || pc.Parked? || pc.Retract? || pc.Release?) && pc.slot == slot
  }

  /** In unregister or before it: the waiter may still hold its address. */
  predicate Reachable(pc: Pc, shard: nat) {
    ((pc.Active? || pc.Parked? || pc.Retract? || pc.Release?) && pc.slot.shard == shard) || pc == Leave(shard)
  }

  /** A reader's slot is in its shard and marked; its cell is its own. */
  ghost predicate RefOk(s: State, place: Placement, r: Ref) {
    forall x: Slot :: Occupies(PcOf(s, r), x) ==>
      && x in s.bits && x.shard == place(r) % SHARDS && x.pos < CAPACITY
      && (PcOf(s, r).Active? ==> CellAt(s, x) == Of(r))
  }

  /** A reader leaves the shard it was in; one about to claim a bit has seen a clear one. */
  ghost predicate LeaveOk(s: State, place: Placement, r: Ref) {
    && (PcOf(s, r).Leave? ==> PcOf(s, r).shard == place(r) % SHARDS)
    && (PcOf(s, r).Claim? ==> FirstFree(PcOf(s, r).bits, 0) < CAPACITY)
  }

  ghost predicate Alone(s: State, r: Ref, q: Ref, x: Slot) {
    Occupies(PcOf(s, r), x) && Occupies(PcOf(s, q), x) ==> r == q
  }

  /** A cell holding a ref belongs to a reader that is active there or about to retract it. */
  ghost predicate CellOk(s: State, x: Slot) {
    CellAt(s, x).Of? ==> PcOf(s, CellAt(s, x).ref) in {Active(x), Retract(x)}
  }

  ghost predicate InRange(s: State) {
    (forall x | x in s.bits :: x.shard < SHARDS) && (forall x | x in s.watched :: x.shard < SHARDS)
  }

  ghost predicate WaiterFlags(s: State) {
    s.flags == if s.waiter.Inside? then {s.waiter.shard} else if s.waiter.Deref? then {s.waiter.slot.shard} else {}
  }

  /** A slot left to look at in this visit is unconfirmed, and quiet if its bit was clear on entry. */
  ghost predicate RestOk(s: State, shard: nat, rest: set<Slot>, entered: set<Slot>) {
    rest <= s.left && forall x | x in rest :: x.shard == shard && (x !in entered ==> x in s.quiet)
  }

  /** The pointer the waiter holds. */
  ghost predicate HeldOk(s: State, slot: Slot, cell: Cell) {
    match cell
    case Null => true
    case Target => slot in s.quiet
    case Of(r) => (slot in s.quiet || CellAt(s, slot) == Of(r)) && Reachable(PcOf(s, r), slot.shard)
  }

  /** A slot marked when the wait began is in the snapshot, or was unmarked when its shard was loaded. */
  ghost predicate Noted(s: State, x: Slot) {
    x.shard < (match s.waiter case SetTarget => 0 case Snapshot(n) => n case _ => SHARDS) ==> x in s.taken || x in s.quiet
  }

  ghost predicate WaiterOk(s: State) {
    && WaiterFlags(s)
    && (forall x | x in s.watched :: Noted(s, x))
    && s.left <= s.taken && s.taken - s.left <= s.quiet
    && (s.waiter.Snapshot? || s.waiter.Choose? || s.waiter.Inside? || s.waiter.Deref? ==> s.target == s.goal)
    && (s.waiter.Idle? ==> s.left == {})
    && match s.waiter {
         case Inside(i, rest, entered) => RestOk(s, i, rest, entered)
         case Deref(slot, cell, rest, entered) =>
           slot in s.left && slot !in rest && RestOk(s, slot.shard, rest, entered) && HeldOk(s, slot, cell)
         case _ => true
       }
  }

  ghost predicate Inv(s: State, place: Placement) {
    RefsInv(s, place) && InRange(s) && WaiterOk(s)
  }

  // ---- readers ----

  ghost predicate RefsInv(s: State, place: Placement) {
    && (forall r: Ref :: RefOk(s, place, r))
    && (forall r: Ref :: LeaveOk(s, place, r))
    && (forall r: Ref, q: Ref, x: Slot :: Alone(s, r, q, x))
    && (forall x: Slot :: CellOk(s, x))
  }

  predicate IsReaderStep(act: Act) {
    !act.Wait? && !act.WaiterStep?
  }

  function Actor(act: Act): Ref
    requires IsReaderStep(act)
  {
    act.r
  }

  lemma ReaderKeepsCell(s: State, place: Placement, act: Act, x: Slot)
    requires CellOk(s, x) && IsReaderStep(act)
    ensures CellOk(Apply(s, place, act), x)
  {
  }

  /** Steps of a do not touch the slot and cell of another reader. */
  lemma OtherUntouched(s: State, place: Placement, act: Act, r: Ref, x: Slot)
    requires IsReaderStep(act) && r != Actor(act) && Alone(s, r, Actor(act), x) && Occupies(PcOf(s, r), x) && x in s.bits
    ensures var s' := Apply(s, place, act); x in s'.bits && CellAt(s', x) == CellAt(s, x)
  {
  }

  lemma OtherStays(s: State, place: Placement, act: Act, r: Ref)
    requires IsReaderStep(act) && r != Actor(act)
    ensures PcOf(Apply(s, place, act), r) == PcOf(s, r)
  {
  }

  lemma OtherKeepsRef(s: State, place: Placement, act: Act, r: Ref)
    requires IsReaderStep(act) && r != Actor(act) && RefOk(s, place, r) && LeaveOk(s, place, r)
    requires forall x: Slot :: Alone(s, r, Actor(act), x)
    ensures RefOk(Apply(s, place, act), place, r) && LeaveOk(Apply(s, place, act), place, r)
  {
    OtherStays(s, place, act, r);
    var s' := Apply(s, place, act);
    forall x: Slot | Occupies(PcOf(s', r), x)
      ensures x in s'.bits && x.shard == place(r) % SHARDS && x.pos < CAPACITY && (PcOf(s', r).Active? ==> CellAt(s', x) == Of(r))
    {
      assert Alone(s, r, Actor(act), x);
      OtherUntouched(s, place, act, r, x);
    }
  }

  /** A reader's own next access inside register or unregister. */
  lemma EnterKeepsRef(s: State, place: Placement, r: Ref, spurious: bool)
    requires RefOk(s, place, r) && LeaveOk(s, place, r) && (PcOf(s, r).Load? || PcOf(s, r).Claim? || PcOf(s, r).Publish?)
    ensures RefOk(AdvanceRef(s, place, r, spurious), place, r) && LeaveOk(AdvanceRef(s, place, r, spurious), place, r)
  {
    var pc := PcOf(s, r);
    if pc.Publish? { assert Occupies(pc, pc.slot); }
  }

  lemma ExitKeepsRef(s: State, place: Placement, r: Ref, spurious: bool)
    requires RefOk(s, place, r) && LeaveOk(s, place, r) && !(PcOf(s, r).Load? || PcOf(s, r).Claim? || PcOf(s, r).Publish?)
    ensures RefOk(AdvanceRef(s, place, r, spurious), place, r) && LeaveOk(AdvanceRef(s, place, r, spurious), place, r)
  {
    var pc := PcOf(s, r);
    if pc.Active? || pc.Parked? || pc.Retract? || pc.Release? { assert Occupies(pc, pc.slot); }
  }

  lemma AdvanceKeepsRef(s: State, place: Placement, r: Ref, spurious: bool)
    requires RefOk(s, place, r) && LeaveOk(s, place, r)
    ensures RefOk(AdvanceRef(s, place, r, spurious), place, r) && LeaveOk(AdvanceRef(s, place, r, spurious), place, r)
  {
    if PcOf(s, r).Load? || PcOf(s, r).Claim? || PcOf(s, r).Publish? {
      EnterKeepsRef(s, place, r, spurious);
    } else {
      ExitKeepsRef(s, place, r, spurious);
    }
  }

  lemma OwnKeepsRef(s: State, place: Placement, act: Act)
    requires IsReaderStep(act) && RefOk(s, place, Actor(act)) && LeaveOk(s, place, Actor(act))
    ensures RefOk(Apply(s, place, act), place, Actor(act)) && LeaveOk(Apply(s, place, act), place, Actor(act))
  {
    var pc := PcOf(s, Actor(act));
    if act.Advance? {
      AdvanceKeepsRef(s, place, act.r, act.spurious);
    } else if pc.Active? || pc.Parked? {
      assert Occupies(pc, pc.slot);
    }
  }

  lemma ReaderKeepsRef(s: State, place: Placement, act: Act, r: Ref)
    requires IsReaderStep(act) && RefOk(s, place, r) && LeaveOk(s, place, r)
    requires forall x: Slot :: Alone(s, r, Actor(act), x)
    ensures RefOk(Apply(s, place, act), place, r) && LeaveOk(Apply(s, place, act), place, r)
  {
    if r == Actor(act) {
      OwnKeepsRef(s, place, act);
    } else {
      OtherKeepsRef(s, place, act, r);
    }
  }

  /** A reader takes only a slot that was unmarked, or one it has. */
  lemma TakesFree(s: State, place: Placement, act: Act, x: Slot)
    requires IsReaderStep(act) && LeaveOk(s, place, Actor(act))
    ensures Occupies(PcOf(Apply(s, place, act), Actor(act)), x) ==> Occupies(PcOf(s, Actor(act)), x) || x !in s.bits
  {
  }

  lemma ReaderKeepsAlone(s: State, place: Placement, act: Act, r: Ref, q: Ref, x: Slot)
    requires IsReaderStep(act) && Alone(s, r, q, x) && RefOk(s, place, r) && RefOk(s, place, q) && LeaveOk(s, place, Actor(act))
    ensures Alone(Apply(s, place, act), r, q, x)
  {
    TakesFree(s, place, act, x);
    if r != Actor(act) { OtherStays(s, place, act, r); }
    if q != Actor(act) { OtherStays(s, place, act, q); }
  }

  lemma ReaderKeepsRefs(s: State, place: Placement, act: Act)
    requires RefsInv(s, place) && IsReaderStep(act)
    ensures RefsInv(Apply(s, place, act), place)
  {
    var s', a := Apply(s, place, act), Actor(act);
    assert RefOk(s, place, a) && LeaveOk(s, place, a);
    forall r: Ref ensures RefOk(s', place, r) && LeaveOk(s', place, r) {
      assert RefOk(s, place, r) && LeaveOk(s, place, r);
      assert forall x: Slot :: Alone(s, r, a, x);
      ReaderKeepsRef(s, place, act, r);
    }
    forall r: Ref, q: Ref, x: Slot ensures Alone(s', r, q, x) {
      assert Alone(s, r, q, x) && RefOk(s, place, r) && RefOk(s, place, q);
      ReaderKeepsAlone(s, place, act, r, q, x);
    }
    forall x: Slot ensures CellOk(s', x) {
      assert CellOk(s, x);
      ReaderKeepsCell(s, place, act, x);
    }
  }

  // ---- the waiter ----

  /** A marked slot whose cell holds no ref, or an unmarked one, has no active reader. */
  lemma NobodyActive(s: State, place: Placement, x: Slot)
    requires RefsInv(s, place) && (!CellAt(s, x).Of? || x !in s.bits)
    ensures Quiescent(s, x)
  {
    forall r | r in s.pcs ensures s.pcs[r] != Active(x) { NotActive(s, place, x, r); }
  }

  lemma NotActive(s: State, place: Placement, x: Slot, r: Ref)
    requires RefsInv(s, place) && (!CellAt(s, x).Of? || x !in s.bits)
    ensures PcOf(s, r) != Active(x)
  {
    assert RefOk(s, place, r);
    assert Occupies(Active(x), x);
  }

  /** Whoever is active at a slot is the ref its cell holds. */
  lemma HolderDecides(s: State, place: Placement, x: Slot, r: Ref)
    requires RefsInv(s, place) && CellAt(s, x) == Of(r) && QState(s, r) == s.goal
    ensures Quiescent(s, x)
  {
    forall q | q in s.pcs && s.pcs[q] == Active(x) ensures QState(s, q) == s.goal {
      assert RefOk(s, place, q) && Occupies(PcOf(s, q), x);
    }
  }

  /** While the waiter is in the shard a reader cannot get beyond the end of unregister. */
  lemma StaysReachable(s: State, place: Placement, act: Act, r: Ref, shard: nat)
    requires IsReaderStep(act) && Reachable(PcOf(s, r), shard) && shard in s.flags
    ensures Reachable(PcOf(Apply(s, place, act), r), shard)
  {
  }

  /** A step that replaces a cell's ref replaces it by q->target. */
  lemma RefLeavesCell(s: State, place: Placement, act: Act, slot: Slot)
    requires RefsInv(s, place) && IsReaderStep(act) && CellAt(s, slot).Of?
    ensures var c := CellAt(Apply(s, place, act), slot); c == CellAt(s, slot) || c == Target
  {
    assert CellOk(s, slot) && RefOk(s, place, Actor(act)) && Alone(s, CellAt(s, slot).ref, Actor(act), slot);
  }

  /** What the waiter holds stays good while readers move: a ref it holds cannot finish unregistering, and a slot
      whose cell changes is quiescent at that instant. */
  lemma ReaderKeepsHeld(s: State, place: Placement, act: Act, slot: Slot, cell: Cell)
    requires RefsInv(s, place) && IsReaderStep(act) && HeldOk(s, slot, cell) && slot in s.taken && slot.shard in s.flags
    ensures HeldOk(Next(s, place, act), slot, cell)
  {
    ReaderLeavesWaiter(s, place, act);
    if cell.Of? {
      StaysReachable(s, place, act, cell.ref, slot.shard);
      if CellAt(s, slot) == cell {
        ReaderKeepsRefs(s, place, act);
        RefLeavesCell(s, place, act, slot);
        if CellAt(Apply(s, place, act), slot) == Target {
          NobodyActive(Apply(s, place, act), place, slot);
        }
      }
    }
  }

  /** Readers do not touch what the waiter keeps; the history only grows. */
  lemma ReaderLeavesWaiter(s: State, place: Placement, act: Act)
    requires IsReaderStep(act)
    ensures var s' := Next(s, place, act);
      s'.flags == s.flags && s'.waiter == s.waiter && s'.target == s.target && s'.goal == s.goal && s'.taken == s.taken
      && s'.left == s.left && s'.watched == s.watched && s.quiet <= s'.quiet
  {
  }

  lemma WaiterStaysOk(s: State, s': State)
    requires WaiterOk(s) && s'.flags == s.flags && s'.waiter == s.waiter && s'.target == s.target && s'.goal == s.goal
    requires s'.taken == s.taken && s'.left == s.left && s'.watched == s.watched && s.quiet <= s'.quiet
    requires s.waiter.Deref? ==> HeldOk(s', s.waiter.slot, s.waiter.cell)
    ensures WaiterOk(s')
  {
    forall x | x in s'.watched ensures Noted(s', x) { assert Noted(s, x); }
  }

  lemma ReaderKeepsWaiter(s: State, place: Placement, act: Act)
    requires RefsInv(s, place) && WaiterOk(s) && IsReaderStep(act)
    ensures WaiterOk(Next(s, place, act))
  {
    ReaderLeavesWaiter(s, place, act);
    if s.waiter.Deref? {
      ReaderKeepsHeld(s, place, act, s.waiter.slot, s.waiter.cell);
    }
    WaiterStaysOk(s, Next(s, place, act));
  }

  /** Entering a shard: slots of the snapshot found unmarked are quiescent there and then. */
  lemma EnterShard(s: State, place: Placement, pick: Slot)
    requires RefsInv(s, place) && WaiterOk(s) && s.waiter.Choose? && pick in s.left
    ensures WaiterOk(Next(s, place, WaiterStep(pick)))
  {
    var a := AdvanceWaiter(s, pick);
    var s' := Next(s, place, WaiterStep(pick));
    forall x | x in a.waiter.rest && x !in a.waiter.entered ensures x in s'.quiet {
      NobodyActive(s, place, x);
      SameReaders(s, a, x);
    }
  }

  /** Loading a shard's bitmap: watched slots found unmarked are quiescent there and then. */
  lemma LoadShard(s: State, place: Placement, pick: Slot)
    requires RefsInv(s, place) && WaiterOk(s) && s.waiter.Snapshot?
    ensures WaiterOk(Next(s, place, WaiterStep(pick)))
  {
    var a := AdvanceWaiter(s, pick);
    var s' := Next(s, place, WaiterStep(pick));
    forall x | x in s'.watched ensures Noted(s', x) {
      assert Noted(s, x);
      if x.shard == s.waiter.next && x !in s.bits {
        NobodyActive(s, place, x);
        SameReaders(s, a, x);
      }
    }
  }

  /** Another value of the waiter's fields, the rest of the state the same. */
  lemma SameReaders(s: State, a: State, x: Slot)
    requires a.pcs == s.pcs && a.qstate == s.qstate && a.goal == s.goal && Quiescent(s, x)
    ensures Quiescent(a, x)
  {
    forall r | r in a.pcs && a.pcs[r] == Active(x) ensures QState(a, r) == a.goal { assert QState(s, r) == s.goal; }
  }

  /** Loading the pointer of a slot. */
  lemma LoadKeepsWaiter(s: State, place: Placement, pick: Slot)
    requires RefsInv(s, place) && WaiterOk(s) && s.waiter.Inside? && pick in s.waiter.rest && pick in s.waiter.entered
    ensures WaiterOk(Next(s, place, WaiterStep(pick)))
  {
    var a := AdvanceWaiter(s, pick);
    forall x | x in s.watched ensures Noted(s, x) {}
    assert CellOk(s, pick);
    if !CellAt(s, pick).Of? {
      NobodyActive(s, place, pick);
      SameReaders(s, a, pick);
    }
  }

  /** Passing over a slot found unmarked, or leaving the shard. */
  lemma PassKeepsWaiter(s: State, place: Placement, pick: Slot)
    requires WaiterOk(s) && s.waiter.Inside? && !(pick in s.waiter.rest && pick in s.waiter.entered)
    ensures WaiterOk(Next(s, place, WaiterStep(pick)))
  {
    forall x | x in s.watched ensures Noted(s, x) {}
  }

  lemma VisitKeepsWaiter(s: State, place: Placement, pick: Slot)
    requires RefsInv(s, place) && WaiterOk(s) && s.waiter.Inside?
    ensures WaiterOk(Next(s, place, WaiterStep(pick)))
  {
    if pick in s.waiter.rest && pick in s.waiter.entered {
      LoadKeepsWaiter(s, place, pick);
    } else {
      PassKeepsWaiter(s, place, pick);
    }
  }

  /** Loading the state behind the pointer. */
  lemma DerefKeepsWaiter(s: State, place: Placement, pick: Slot)
    requires RefsInv(s, place) && WaiterOk(s) && s.waiter.Deref?
    ensures WaiterOk(Next(s, place, WaiterStep(pick)))
  {
    var a, slot, cell := AdvanceWaiter(s, pick), s.waiter.slot, s.waiter.cell;
    forall x | x in s.watched ensures Noted(s, x) {}
    if cell.Of? && QState(s, cell.ref) == s.goal && slot !in s.quiet {
      HolderDecides(s, place, slot, cell.ref);
      SameReaders(s, a, slot);
    }
  }

  lemma WaiterKeepsItself(s: State, place: Placement, pick: Slot)
    requires RefsInv(s, place) && WaiterOk(s)
    ensures WaiterOk(Next(s, place, WaiterStep(pick)))
  {
    match s.waiter {
      case Snapshot(i) => LoadShard(s, place, pick);
      case Choose => ChooseKeepsWaiter(s, place, pick);
      case Inside(_, _, _) => VisitKeepsWaiter(s, place, pick);
      case Deref(_, _, _, _) => DerefKeepsWaiter(s, place, pick);
      case _ => StartKeepsWaiter(s, place, pick);
    }
  }

  lemma ChooseKeepsWaiter(s: State, place: Placement, pick: Slot)
    requires RefsInv(s, place) && WaiterOk(s) && s.waiter.Choose?
    ensures WaiterOk(Next(s, place, WaiterStep(pick)))
  {
    forall x | x in s.watched ensures Noted(s, x) {}
    if s.left != {} && pick in s.left { EnterShard(s, place, pick); }
  }

  lemma StartKeepsWaiter(s: State, place: Placement, pick: Slot)
    requires RefsInv(s, place) && WaiterOk(s) && (s.waiter.Idle? || s.waiter.SetTarget?)
    ensures WaiterOk(Next(s, place, WaiterStep(pick)))
  {
    forall x | x in s.watched ensures Noted(s, x) {}
  }

  lemma ReaderInRange(s: State, place: Placement, act: Act)
    requires InRange(s) && IsReaderStep(act)
    ensures forall x | x in Apply(s, place, act).bits :: x.shard < SHARDS
  {
  }

  lemma StepInRange(s: State, place: Placement, act: Act)
    requires InRange(s)
    ensures InRange(Next(s, place, act))
  {
    if IsReaderStep(act) {
      ReaderInRange(s, place, act);
      ReaderLeavesWaiter(s, place, act);
    } else {
      WaiterLeavesRefs(s, place, act);
      if act.WaiterStep? { AdvanceKeepsGoal(s, act.pick); }
    }
  }

  lemma CallKeepsWaiter(s: State, place: Placement, v: int)
    requires WaiterOk(s)
    ensures WaiterOk(Next(s, place, Wait(v)))
  {
    forall x | x in s.watched ensures Noted(s, x) {}
  }

  lemma WaiterLeavesRefs(s: State, place: Placement, act: Act)
    requires !IsReaderStep(act)
    ensures var s' := Next(s, place, act); s'.bits == s.bits && s'.cells == s.cells && s'.pcs == s.pcs
  {
  }

  /** Every step of anybody keeps the invariant. */
  lemma StepKeepsInv(s: State, place: Placement, act: Act)
    requires Inv(s, place)
    ensures Inv(Next(s, place, act), place)
  {
    assert RefsInv(s, place);
    StepInRange(s, place, act);
    var s' := Next(s, place, act);
    if IsReaderStep(act) {
      ReaderKeepsRefs(s, place, act);
      SameRefs(Apply(s, place, act), s', place);
      ReaderKeepsWaiter(s, place, act);
    } else {
      WaiterLeavesRefs(s, place, act);
      SameRefs(s, s', place);
      if act.WaiterStep? {
        WaiterKeepsItself(s, place, act.pick);
      } else {
        CallKeepsWaiter(s, place, act.v);
      }
    }
    assert RefsInv(s', place);
  }

  lemma SameRefs(s: State, s': State, place: Placement)
    requires RefsInv(s, place) && s'.bits == s.bits && s'.cells == s.cells && s'.pcs == s.pcs
    ensures RefsInv(s', place)
  {
    forall r: Ref ensures RefOk(s', place, r) && LeaveOk(s', place, r) { assert RefOk(s, place, r) && LeaveOk(s, place, r); }
    forall r: Ref, q: Ref, x: Slot ensures Alone(s', r, q, x) { assert Alone(s, r, q, x); }
    forall x: Slot ensures CellOk(s', x) { assert CellOk(s, x); }
  }

  // ---- every run ----

  function Run(s: State, place: Placement, acts: seq<Act>): State {
    if acts == [] then s else Next(Run(s, place, acts[..|acts| - 1]), place, acts[|acts| - 1])
  }

  /** Nobody registered, no waiter. */
  function Init(): State {
    State({}, {}, map[], map[], 0, map[], Idle, 0, {}, {}, {}, {})
  }

  lemma InitInv(place: Placement)
    ensures Inv(Init(), place)
  {
  }

  lemma {:induction false} RunKeepsInv(s: State, place: Placement, acts: seq<Act>)
    requires Inv(s, place)
    ensures Inv(Run(s, place, acts), place)
  {
    if acts != [] {
      RunKeepsInv(s, place, acts[..|acts| - 1]);
      StepKeepsInv(Run(s, place, acts[..|acts| - 1]), place, acts[|acts| - 1]);
    }
  }

  /** At every point of every run the ref the waiter is about to dereference is registered or still inside unregister:
      once qsbr_unregister has returned nobody touches it. */
  lemma NoUseAfterUnregister(place: Placement, acts: seq<Act>)
    requires var s := Run(Init(), place, acts); s.waiter.Deref? && s.waiter.cell.Of?
    ensures var s := Run(Init(), place, acts);
      Reachable(PcOf(s, s.waiter.cell.ref), s.waiter.slot.shard) && !PcOf(s, s.waiter.cell.ref).Out?
  {
    InitInv(place);
    RunKeepsInv(Init(), place, acts);
  }

  /** Slot x was quiescent for the goal at some instant of the run. */
  ghost predicate QuietAtSomeInstant(s: State, place: Placement, acts: seq<Act>, x: Slot) {
    exists n: nat :: n <= |acts| && QuietAt(s, place, acts, n, x)
  }

  ghost predicate QuietAt(s: State, place: Placement, acts: seq<Act>, n: nat, x: Slot)
    requires n <= |acts|
  {
    Quiescent(Run(s, place, acts[..n]), x)
  }

  /** What a step adds to the history is quiescent right after it. */
  lemma StepRecords(s: State, place: Placement, act: Act, x: Slot)
    requires !act.Wait? && x in Next(s, place, act).quiet && x !in s.quiet
    ensures Quiescent(Next(s, place, act), x)
  {
    SameQuiet(Apply(s, place, act), Next(s, place, act), x);
  }

  lemma AdvanceKeepsGoal(s: State, pick: Slot)
    ensures AdvanceWaiter(s, pick).goal == s.goal && AdvanceWaiter(s, pick).watched == s.watched
  {
  }

  lemma StepKeepsGoal(s: State, place: Placement, act: Act)
    requires !act.Wait?
    ensures Next(s, place, act).goal == s.goal && Next(s, place, act).watched == s.watched
  {
    if IsReaderStep(act) {
      ReaderLeavesWaiter(s, place, act);
    } else {
      AdvanceKeepsGoal(s, act.pick);
    }
  }

  /** The history is honest: what it records has happened. */
  lemma {:induction false} HistoryIsHonest(s: State, place: Placement, acts: seq<Act>)
    requires (forall x | x in s.quiet :: Quiescent(s, x)) && forall i | 0 <= i < |acts| :: !acts[i].Wait?
    ensures var e := Run(s, place, acts);
      e.goal == s.goal && e.watched == s.watched && forall x | x in e.quiet :: QuietAtSomeInstant(s, place, acts, x)
  {
    if acts != [] {
      var k := |acts| - 1;
      var before := acts[..k];
      HistoryIsHonest(s, place, before);
      var b := Run(s, place, before);
      StepKeepsGoal(b, place, acts[k]);
      forall x | x in Run(s, place, acts).quiet ensures QuietAtSomeInstant(s, place, acts, x) {
        RecordedEarlier(s, place, acts, before, acts[k], x);
      }
    } else {
      forall x | x in s.quiet ensures QuietAtSomeInstant(s, place, acts, x) {
        assert acts[..0] == [] && QuietAt(s, place, acts, 0, x);
      }
    }
  }

  lemma RecordedEarlier(s: State, place: Placement, acts: seq<Act>, before: seq<Act>, act: Act, x: Slot)
    requires acts == before + [act] && !act.Wait? && x in Run(s, place, acts).quiet
    requires x in Run(s, place, before).quiet ==> QuietAtSomeInstant(s, place, before, x)
    ensures QuietAtSomeInstant(s, place, acts, x)
  {
    assert acts[..|before|] == before && acts[..|acts|] == acts;
    if x in Run(s, place, before).quiet {
      var n: nat :| n <= |before| && QuietAt(s, place, before, n, x);
      assert acts[..n] == before[..n];
      assert QuietAt(s, place, acts, n, x);
    } else {
      StepRecords(Run(s, place, before), place, act, x);
      assert QuietAt(s, place, acts, |acts|, x);
    }
  }

  lemma SameQuiet(a: State, e: State, x: Slot)
    requires e.pcs == a.pcs && e.qstate == a.qstate && e.goal == a.goal && Quiescent(a, x)
    ensures Quiescent(e, x)
  {
    forall r | r in e.pcs && e.pcs[r] == Active(x) ensures QState(e, r) == e.goal {
      assert QState(a, r) == a.goal;
    }
  }

  /** The state right after qsbr_wait is called. */
  ghost function Started(s: State, place: Placement, v: int): State {
    Next(s, place, Wait(v))
  }

  lemma StartedIs(s: State, place: Placement, v: int)
    requires s.waiter.Idle?
    ensures var b := Started(s, place, v);
      b.goal == v && b.watched == s.bits && b.pcs == s.pcs && forall x | x in b.quiet :: Quiescent(b, x)
  {
    var b := Started(s, place, v);
    forall x | x in b.quiet ensures Quiescent(b, x) { SameQuiet(Apply(s, place, Wait(v)), b, x); }
  }

  /** When the wait returns, all slots of its snapshot and all that were marked have been quiescent. */
  lemma AllQuiet(s: State, place: Placement, v: int, acts: seq<Act>)
    requires Inv(s, place) && s.waiter.Idle? && forall i | 0 <= i < |acts| :: !acts[i].Wait?
    requires Run(Started(s, place, v), place, acts).waiter.Idle?
    ensures var e := Run(Started(s, place, v), place, acts);
      forall x | x in e.taken || x in s.bits :: QuietAtSomeInstant(Started(s, place, v), place, acts, x)
  {
    var b := Started(s, place, v);
    StepKeepsInv(s, place, Wait(v));
    StartedIs(s, place, v);
    RunKeepsInv(b, place, acts);
    HistoryIsHonest(b, place, acts);
    var e := Run(b, place, acts);
    forall x | x in e.taken || x in s.bits ensures x in e.quiet {
      if x in s.bits { assert Noted(e, x); }
    }
  }

  // ---- what readers report ----

  /** The value a reader reported last: 0 when it registers, then the argument of each qsbr_update while it is registered
      and not parked. */
  ghost function Reported(place: Placement, acts: seq<Act>, r: Ref): int {
    if acts == [] then 0
    else
      var before, act := acts[..|acts| - 1], acts[|acts| - 1];
      var pc := PcOf(Run(Init(), place, before), r);
      if act == Register(r) && pc.Out? then 0
      else if act.Update? && act.r == r && pc.Active? then act.v
      else Reported(place, before, r)
  }

  lemma StepReports(s: State, place: Placement, act: Act, r: Ref)
    ensures QState(Next(s, place, act), r)
         == if act == Register(r) && PcOf(s, r).Out? then 0
            else if act.Update? && act.r == r && PcOf(s, r).Active? then act.v
            else QState(s, r)
  {
  }

  /** In every run a reader's state is the value it reported last. */
  lemma {:induction false} StateIsReport(place: Placement, acts: seq<Act>, r: Ref)
    ensures QState(Run(Init(), place, acts), r) == Reported(place, acts, r)
  {
    if acts != [] {
      StateIsReport(place, acts[..|acts| - 1], r);
      StepReports(Run(Init(), place, acts[..|acts| - 1]), place, acts[|acts| - 1], r);
    }
  }

  /** Whoever is registered at the slot and not parked has reported v last. */
  ghost predicate AtTarget(place: Placement, acts: seq<Act>, v: int, x: Slot) {
    forall r: Ref :: PcOf(Run(Init(), place, acts), r) == Active(x) ==> Reported(place, acts, r) == v
  }

  lemma QuietIsAtTarget(place: Placement, acts: seq<Act>, x: Slot)
    requires Quiescent(Run(Init(), place, acts), x)
    ensures AtTarget(place, acts, Run(Init(), place, acts).goal, x)
  {
    var s := Run(Init(), place, acts);
    forall r: Ref | PcOf(s, r) == Active(x) ensures Reported(place, acts, r) == s.goal {
      StateIsReport(place, acts, r);
      assert r in s.pcs;
    }
  }

  /** A run with a wait that starts after the acts before. */
  function Waiting(before: seq<Act>, v: int, acts: seq<Act>): seq<Act> {
    before + [Wait(v)] + acts
  }

  lemma WaitingRuns(place: Placement, before: seq<Act>, v: int, acts: seq<Act>)
    ensures Run(Init(), place, Waiting(before, v, acts)) == Run(Started(Run(Init(), place, before), place, v), place, acts)
  {
    RunAppend(Init(), place, before + [Wait(v)], acts);
    RunNext(place, before, Wait(v), Run(Init(), place, before));
  }

  /** The grace period, over every run: when qsbr_wait returns, for each slot in its snapshot, and each slot marked when it
      was called, there was an instant during the wait at which nobody was registered there unparked who had not last
      reported the target. */
  lemma GracePeriod(place: Placement, before: seq<Act>, v: int, acts: seq<Act>)
    requires Run(Init(), place, before).waiter.Idle? && forall i | 0 <= i < |acts| :: !acts[i].Wait?
    requires Run(Init(), place, Waiting(before, v, acts)).waiter.Idle?
    ensures forall x | x in Run(Init(), place, Waiting(before, v, acts)).taken || x in Run(Init(), place, before).bits ::
      exists n: nat :: n <= |acts| && AtTarget(place, Waiting(before, v, acts[..n]), v, x)
  {
    var s := Run(Init(), place, before);
    InitInv(place);
    RunKeepsInv(Init(), place, before);
    WaitingRuns(place, before, v, acts);
    AllQuiet(s, place, v, acts);
    forall x | x in Run(Init(), place, Waiting(before, v, acts)).taken || x in s.bits
      ensures exists n: nat :: n <= |acts| && AtTarget(place, Waiting(before, v, acts[..n]), v, x)
    {
      var n: nat :| n <= |acts| && QuietAt(Started(s, place, v), place, acts, n, x);
      WaitingRuns(place, before, v, acts[..n]);
      StartedIs(s, place, v);
      HistoryIsHonest(Started(s, place, v), place, acts[..n]);
      QuietIsAtTarget(place, Waiting(before, v, acts[..n]), x);
    }
  }

  /** So a reader that is active and unparked throughout the wait reported the target last at some instant of it. */
  lemma ActiveReachesTarget(place: Placement, before: seq<Act>, v: int, acts: seq<Act>, r: Ref, x: Slot)
    requires Run(Init(), place, before).waiter.Idle? && forall i | 0 <= i < |acts| :: !acts[i].Wait?
    requires Run(Init(), place, Waiting(before, v, acts)).waiter.Idle?
    requires forall n: nat | n <= |acts| :: StaysActive(place, before, v, acts, n, r, x)
    ensures exists n: nat :: n <= |acts| && Reported(place, Waiting(before, v, acts[..n]), r) == v
  {
    var s := Run(Init(), place, before);
    InitInv(place);
    RunKeepsInv(Init(), place, before);
    assert StaysActive(place, before, v, acts, 0, r, x);
    WaitingRuns(place, before, v, acts[..0]);
    StartedIs(s, place, v);
    assert acts[..0] == [];
    assert RefOk(s, place, r) && Occupies(PcOf(s, r), x);
    GracePeriod(place, before, v, acts);
    var n: nat :| n <= |acts| && AtTarget(place, Waiting(before, v, acts[..n]), v, x);
    assert StaysActive(place, before, v, acts, n, r, x);
  }

  ghost predicate StaysActive(place: Placement, before: seq<Act>, v: int, acts: seq<Act>, n: nat, r: Ref, x: Slot)
    requires n <= |acts|
  {
    PcOf(Run(Init(), place, Waiting(before, v, acts[..n])), r) == Active(x)
  }

  // ---- what the waiter drops ----

  /** Turning to a slot of the snapshot: it is dropped if it was unmarked when the waiter entered the shard; otherwise the
      pointer loaded is that of the reader registered there unparked, if there is one. */
  lemma LookLoads(place: Placement, acts: seq<Act>, x: Slot)
    requires var s := Run(Init(), place, acts); s.waiter.Inside? && x in s.waiter.rest
    ensures var s, e := Run(Init(), place, acts), Run(Init(), place, acts + [WaiterStep(x)]);
      if x in s.waiter.entered then
        && e.left == s.left && e.waiter.Deref? && e.waiter.slot == x && e.waiter.cell == CellAt(s, x)
        && forall r: Ref :: PcOf(s, r) == Active(x) ==> e.waiter.cell == Of(r)
      else e.left == s.left - {x} && e.waiter.Inside? && e.waiter.rest == s.waiter.rest - {x}
  {
    var s := Run(Init(), place, acts);
    InitInv(place);
    RunKeepsInv(Init(), place, acts);
    RunNext(place, acts, WaiterStep(x), s);
    forall r: Ref | PcOf(s, r) == Active(x) ensures CellAt(s, x) == Of(r) {
      assert RefOk(s, place, r) && Occupies(PcOf(s, r), x);
    }
  }

  /** Reading the state behind the pointer: a reader's slot is dropped exactly when the reader last reported the goal, a
      parked or retracted one always. */
  lemma LookDecides(place: Placement, acts: seq<Act>, pick: Slot)
    requires Run(Init(), place, acts).waiter.Deref?
    ensures var s, e := Run(Init(), place, acts), Run(Init(), place, acts + [WaiterStep(pick)]); var w := s.waiter;
      && e.goal == s.goal && e.waiter.Inside? && e.waiter.rest == w.rest && w.slot in s.left && s.left - {w.slot} <= e.left <= s.left
      && (w.slot !in e.left <==> w.cell == Target || (w.cell.Of? && Reported(place, acts, w.cell.ref) == s.goal))
  {
    var s := Run(Init(), place, acts);
    InitInv(place);
    RunKeepsInv(Init(), place, acts);
    RunNext(place, acts, WaiterStep(pick), s);
    if s.waiter.cell.Of? { StateIsReport(place, acts, s.waiter.cell.ref); }
  }

  // ---- marked slots ----

  /** A marked slot is somebody's, and its cell is empty only until that somebody has stored its ref there. */
  ghost predicate Filled(s: State, x: Slot) {
    x in s.bits ==> exists r: Ref :: Owner(s, x, r)
  }

  /** A slot the waiter found marked does not lose its mark while its cell is empty. */
  ghost predicate StillMarked(s: State) {
    forall x | x in s.taken :: CellAt(s, x).Null? ==> x in s.bits
  }

  ghost predicate NullInv(s: State) {
    (forall x: Slot :: Filled(s, x)) && StillMarked(s)
  }

  /** The reader whose slot it is. */
  ghost predicate Owner(s: State, x: Slot, r: Ref) {
    Occupies(PcOf(s, r), x) && (CellAt(s, x).Null? ==> PcOf(s, r).Publish?)
  }

  /** An owner other than the one moving stays the owner. */
  lemma OwnerStays(s: State, place: Placement, act: Act, x: Slot, r: Ref)
    requires IsReaderStep(act) && r != Actor(act) && Owner(s, x, r) && Alone(s, r, Actor(act), x) && x in s.bits
    ensures Owner(Apply(s, place, act), x, r)
  {
    OtherStays(s, place, act, r);
    OtherUntouched(s, place, act, r, x);
  }

  /** The one moving stays the owner until it clears its bit. */
  lemma OwnerMoves(s: State, place: Placement, act: Act, x: Slot)
    requires IsReaderStep(act) && Owner(s, x, Actor(act)) && x in s.bits && x in Apply(s, place, act).bits
    ensures Owner(Apply(s, place, act), x, Actor(act))
  {
  }

  lemma ClaimerOwns(s: State, place: Placement, act: Act, x: Slot)
    requires IsReaderStep(act) && x !in s.bits && x in Apply(s, place, act).bits
    ensures Owner(Apply(s, place, act), x, Actor(act))
  {
  }

  lemma ReaderKeepsFilled(s: State, place: Placement, act: Act, x: Slot)
    requires RefsInv(s, place) && Filled(s, x) && IsReaderStep(act)
    ensures Filled(Apply(s, place, act), x)
  {
    var s', a := Apply(s, place, act), Actor(act);
    if x in s'.bits {
      if x !in s.bits {
        ClaimerOwns(s, place, act, x);
      } else {
        var r: Ref :| Owner(s, x, r);
        assert Alone(s, r, a, x);
        if r == a { OwnerMoves(s, place, act, x); } else { OwnerStays(s, place, act, x, r); }
      }
    }
  }

  lemma ReaderKeepsMark(s: State, place: Placement, act: Act, x: Slot)
    requires RefsInv(s, place) && Filled(s, x) && IsReaderStep(act) && (CellAt(s, x).Null? ==> x in s.bits)
    ensures CellAt(Apply(s, place, act), x).Null? ==> x in Apply(s, place, act).bits
  {
    if x in s.bits {
      var r: Ref :| Owner(s, x, r);
      assert Alone(s, r, Actor(act), x);
    }
  }

  lemma SameFilled(s: State, s': State)
    requires s'.bits == s.bits && s'.cells == s.cells && s'.pcs == s.pcs && forall x: Slot :: Filled(s, x)
    ensures forall x: Slot :: Filled(s', x)
  {
    forall x: Slot | x in s'.bits
      ensures exists r: Ref :: Owner(s', x, r)
    {
      assert Filled(s, x);
      var r: Ref :| Owner(s, x, r);
      assert Owner(s', x, r);
    }
  }

  lemma AdvanceKeepsMarks(s: State, pick: Slot)
    requires StillMarked(s)
    ensures StillMarked(AdvanceWaiter(s, pick))
  {
  }

  lemma SameMarks(a: State, n: State)
    requires StillMarked(a) && n.taken == a.taken && n.cells == a.cells && n.bits == a.bits
    ensures StillMarked(n)
  {
  }

  lemma ReaderKeepsMarks(s: State, place: Placement, act: Act)
    requires RefsInv(s, place) && NullInv(s) && IsReaderStep(act)
    ensures StillMarked(Apply(s, place, act))
  {
    ReaderLeavesWaiter(s, place, act);
    forall x | x in s.taken ensures CellAt(Apply(s, place, act), x).Null? ==> x in Apply(s, place, act).bits {
      assert Filled(s, x);
      ReaderKeepsMark(s, place, act, x);
    }
  }

  lemma StepKeepsNullInv(s: State, place: Placement, act: Act)
    requires RefsInv(s, place) && NullInv(s)
    ensures NullInv(Next(s, place, act))
  {
    var a := Apply(s, place, act);
    if IsReaderStep(act) {
      forall x: Slot ensures Filled(a, x) { assert Filled(s, x); ReaderKeepsFilled(s, place, act, x); }
      ReaderKeepsMarks(s, place, act);
    } else {
      WaiterLeavesRefs(s, place, act);
      SameFilled(s, a);
      if act.WaiterStep? { AdvanceKeepsMarks(s, act.pick); }
    }
    SameFilled(a, Next(s, place, act));
    SameMarks(a, Next(s, place, act));
  }

  lemma {:induction false} RunKeepsNullInv(place: Placement, acts: seq<Act>)
    ensures NullInv(Run(Init(), place, acts)) && Inv(Run(Init(), place, acts), place)
  {
    InitInv(place);
    RunKeepsInv(Init(), place, acts);
    if acts != [] {
      RunKeepsNullInv(place, acts[..|acts| - 1]);
      StepKeepsNullInv(Run(Init(), place, acts[..|acts| - 1]), place, acts[|acts| - 1]);
    }
  }

  // ---- which cells are empty ----

  /** The access that stores a ref into slot x for the registrant that claimed it. */
  ghost predicate StoresTo(s: State, act: Act, x: Slot) {
    act.Advance? && PcOf(s, act.r) == Publish(x)
  }

  ghost predicate StoredAt(place: Placement, acts: seq<Act>, m: nat, x: Slot)
    requires m < |acts|
  {
    StoresTo(Run(Init(), place, acts[..m]), acts[m], x)
  }

  /** No register call has ever got as far as storing its ref into slot x. */
  ghost predicate NeverUsed(place: Placement, acts: seq<Act>, x: Slot) {
    forall m: nat | m < |acts| :: !StoredAt(place, acts, m, x)
  }

  /** A registrant is between its compare-exchange and its store, and nobody has stored to the slot before it. */
  ghost predicate FirstRegistrantInside(place: Placement, acts: seq<Act>, x: Slot) {
    NeverUsed(place, acts, x) && exists r: Ref :: PcOf(Run(Init(), place, acts), r) == Publish(x)
  }

  /** A reader beyond its first store has a cell that is not empty. */
  lemma OwnerFilled(s: State, place: Placement, r: Ref, x: Slot)
    requires RefsInv(s, place) && Filled(s, x) && Occupies(PcOf(s, r), x) && !PcOf(s, r).Publish?
    ensures !CellAt(s, x).Null?
  {
    assert RefOk(s, place, r);
    var q: Ref :| Owner(s, x, q);
    assert Alone(s, r, q, x);
  }

  /** Only the first store fills an empty cell, and no access empties one. */
  lemma CellStep(s: State, place: Placement, act: Act, x: Slot)
    requires RefsInv(s, place) && Filled(s, x)
    ensures CellAt(Next(s, place, act), x).Null? <==> CellAt(s, x).Null? && !StoresTo(s, act, x)
  {
    if IsReaderStep(act) {
      var pc := PcOf(s, Actor(act));
      if Occupies(pc, x) && !pc.Publish? {
        OwnerFilled(s, place, Actor(act), x);
      }
      ReaderFillsCell(s, place, act, x);
    } else {
      WaiterLeavesRefs(s, place, act);
    }
  }

  lemma ReaderFillsCell(s: State, place: Placement, act: Act, x: Slot)
    requires IsReaderStep(act)
    requires Occupies(PcOf(s, Actor(act)), x) && !PcOf(s, Actor(act)).Publish? ==> !CellAt(s, x).Null?
    ensures CellAt(Apply(s, place, act), x).Null? <==> CellAt(s, x).Null? && !StoresTo(s, act, x)
  {
  }

  /** In every run a cell is empty exactly while no register call has stored to it. */
  lemma {:induction false} EmptyIsUnused(place: Placement, acts: seq<Act>, x: Slot)
    ensures CellAt(Run(Init(), place, acts), x).Null? <==> NeverUsed(place, acts, x)
  {
    if acts != [] {
      var k := |acts| - 1;
      var before := acts[..k];
      EmptyIsUnused(place, before, x);
      RunKeepsNullInv(place, before);
      assert Filled(Run(Init(), place, before), x);
      CellStep(Run(Init(), place, before), place, acts[k], x);
      UsedSoFar(place, acts, before, x);
    }
  }

  lemma UsedSoFar(place: Placement, acts: seq<Act>, before: seq<Act>, x: Slot)
    requires acts != [] && before == acts[..|acts| - 1]
    ensures NeverUsed(place, acts, x) <==> NeverUsed(place, before, x) && !StoredAt(place, acts, |acts| - 1, x)
  {
    forall m: nat | m < |before| ensures StoredAt(place, acts, m, x) == StoredAt(place, before, m, x) {
      assert acts[..m] == before[..m];
    }
  }

  // ---- the empty cell ----

  /** The waiter holds the pointer it loaded from an empty cell, and will read a state through it. */
  ghost predicate HoldsEmpty(s: State) {
    s.waiter.Deref? && s.waiter.cell.Null?
  }

  /** In every run, the waiter's load of a slot's pointer yields an empty one if and only if the slot's first
      registrant is between its claim and its store. */
  lemma EmptyCellLoaded(place: Placement, acts: seq<Act>, x: Slot)
    requires var s := Run(Init(), place, acts); s.waiter.Inside? && x in s.waiter.rest && x in s.waiter.entered
    ensures var s' := Next(Run(Init(), place, acts), place, WaiterStep(x));
      s'.waiter.Deref? && s'.waiter.slot == x && (HoldsEmpty(s') <==> FirstRegistrantInside(place, acts, x))
  {
    var s := Run(Init(), place, acts);
    RunKeepsNullInv(place, acts);
    EmptyIsUnused(place, acts, x);
    assert Filled(s, x);
    if CellAt(s, x).Null? {
      var r: Ref :| Owner(s, x, r);
      assert PcOf(s, r) == Publish(x);
    }
  }

  /** It comes to hold one in no other step. */
  lemma EmptyOnlyByLoad(s: State, place: Placement, act: Act)
    requires HoldsEmpty(Next(s, place, act)) && !HoldsEmpty(s)
    ensures act.WaiterStep? && s.waiter.Inside? && act.pick in s.waiter.rest && act.pick in s.waiter.entered
  {
    if IsReaderStep(act) {
      ReaderLeavesWaiter(s, place, act);
    }
  }

  /** After step n the waiter holds an empty pointer it did not hold before. */
  ghost predicate LoadsEmptyAt(place: Placement, acts: seq<Act>, n: nat)
    requires n < |acts|
  {
    !HoldsEmpty(Run(Init(), place, acts[..n])) && HoldsEmpty(Run(Init(), place, acts[..n + 1]))
  }

  /** Step n is the waiter's load of a slot whose first registrant is between its claim and its store. */
  ghost predicate MeetsFirstRegistrant(place: Placement, acts: seq<Act>, n: nat)
    requires n < |acts|
  {
    var s := Run(Init(), place, acts[..n]);
    && acts[n].WaiterStep? && s.waiter.Inside? && acts[n].pick in s.waiter.rest && acts[n].pick in s.waiter.entered
    && FirstRegistrantInside(place, acts[..n], acts[n].pick)
  }

  /** Over every run: the waiter ever comes to hold an empty pointer exactly when it ever looks at a slot whose first
      registrant is between its claim and its store. */
  lemma EmptyCellIff(place: Placement, acts: seq<Act>, n: nat)
    requires n < |acts|
    ensures LoadsEmptyAt(place, acts, n) <==> MeetsFirstRegistrant(place, acts, n)
  {
    var s := Run(Init(), place, acts[..n]);
    assert acts[..n + 1] == acts[..n] + [acts[n]];
    RunNext(place, acts[..n], acts[n], s);
    if LoadsEmptyAt(place, acts, n) {
      EmptyOnlyByLoad(s, place, acts[n]);
      EmptyCellLoaded(place, acts[..n], acts[n].pick);
    } else if MeetsFirstRegistrant(place, acts, n) {
      EmptyCellLoaded(place, acts[..n], acts[n].pick);
    }
  }

  // ---- what a caller can check ----

  /** The snapshot is complete. */
  ghost predicate SnapshotTaken(s: State) {
    s.waiter == Snapshot(SHARDS)
  }

  /** A slot of the snapshot has never been stored to: its first register call is in progress. */
  ghost predicate RegisterInProgress(place: Placement, acts: seq<Act>, x: Slot) {
    x in Run(Init(), place, acts).left && NeverUsed(place, acts, x)
  }

  ghost predicate EmptyLater(place: Placement, acts: seq<Act>, more: seq<Act>) {
    (forall i | 0 <= i < |more| :: !more[i].Wait?) && HoldsEmpty(Run(Init(), place, acts + more))
  }

  /** All slots the waiter has yet to look at have been stored to, and it holds no empty pointer. */
  ghost predicate NoneEmpty(s: State) {
    !HoldsEmpty(s) && forall x | x in s.left :: !CellAt(s, x).Null?
  }

  lemma AdvanceKeepsNoneEmpty(s: State, pick: Slot)
    requires NoneEmpty(s) && WaiterOk(s) && !s.waiter.SetTarget? && (s.waiter.Snapshot? ==> s.waiter.next >= SHARDS)
    ensures NoneEmpty(AdvanceWaiter(s, pick))
    ensures var w := AdvanceWaiter(s, pick).waiter; !w.SetTarget? && (w.Snapshot? ==> w.next >= SHARDS)
  {
  }

  lemma StepKeepsNoneEmpty(s: State, place: Placement, act: Act)
    requires NoneEmpty(s) && Inv(s, place) && NullInv(s) && !act.Wait?
    requires !s.waiter.SetTarget? && (s.waiter.Snapshot? ==> s.waiter.next >= SHARDS)
    ensures var n := Next(s, place, act); NoneEmpty(n) && !n.waiter.SetTarget? && (n.waiter.Snapshot? ==> n.waiter.next >= SHARDS)
  {
    var n := Next(s, place, act);
    forall x ensures CellAt(s, x).Null? || !CellAt(n, x).Null? {
      assert Filled(s, x);
      CellStep(s, place, act, x);
    }
    if IsReaderStep(act) {
      ReaderLeavesWaiter(s, place, act);
    } else {
      AdvanceKeepsNoneEmpty(s, act.pick);
      SameNone(AdvanceWaiter(s, act.pick), n);
    }
  }

  lemma SameNone(a: State, n: State)
    requires NoneEmpty(a) && n.waiter == a.waiter && n.cells == a.cells && n.left == a.left
    ensures NoneEmpty(n)
  {
  }

  /** The snapshot is complete and the waiter will not meet an empty pointer. Unfolded only where CalmNow is mentioned. */
  ghost predicate Calm(s: State) {
    forall u: Unfold :: CalmNow(u, s)
  }

  ghost predicate CalmNow(u: Unfold, s: State) {
    NoneEmpty(s) && !s.waiter.SetTarget? && (s.waiter.Snapshot? ==> s.waiter.next >= SHARDS)
  }

  lemma StepKeepsCalm(place: Placement, ran: seq<Act>, act: Act)
    requires Calm(Run(Init(), place, ran)) && !act.Wait?
    ensures Calm(Run(Init(), place, ran + [act]))
  {
    var s := Run(Init(), place, ran);
    assert CalmNow(Unfold, s);
    RunKeepsNullInv(place, ran);
    RunNext(place, ran, act, s);
    StepKeepsNoneEmpty(s, place, act);
    forall u: Unfold ensures CalmNow(u, Next(s, place, act)) {}
  }

  lemma {:induction false} CalmLater(place: Placement, acts: seq<Act>, more: seq<Act>)
    requires Calm(Run(Init(), place, acts))
    requires forall i | 0 <= i < |more| :: !more[i].Wait?
    ensures Calm(Run(Init(), place, acts + more))
  {
    if more == [] {
      assert acts + more == acts;
    } else {
      var before := more[..|more| - 1];
      CalmLater(place, acts, before);
      StepKeepsCalm(place, acts + before, more[|more| - 1]);
      assert acts + more == acts + before + [more[|more| - 1]];
    }
  }

  lemma NoneEmptyLater(place: Placement, acts: seq<Act>, more: seq<Act>)
    requires var s := Run(Init(), place, acts); NoneEmpty(s) && SnapshotTaken(s)
    requires forall i | 0 <= i < |more| :: !more[i].Wait?
    ensures NoneEmpty(Run(Init(), place, acts + more))
  {
    var s := Run(Init(), place, acts);
    assert Calm(s) by { forall u: Unfold ensures CalmNow(u, s) {} }
    CalmLater(place, acts, more);
    assert CalmNow(Unfold, Run(Init(), place, acts + more));
  }

  /** What decides it, for every run up to the point where the snapshot is complete: some continuation of this wait
      has the waiter hold an empty pointer if and only if the snapshot contains a slot whose first register call is
      still in progress. So a caller is safe exactly when no register call of a never-used slot is in progress when
      the snapshot is taken. */
  lemma SnapshotDecides(place: Placement, acts: seq<Act>)
    requires SnapshotTaken(Run(Init(), place, acts))
    ensures (exists more: seq<Act> :: EmptyLater(place, acts, more)) <==> (exists x: Slot :: RegisterInProgress(place, acts, x))
  {
    var s := Run(Init(), place, acts);
    if x: Slot :| RegisterInProgress(place, acts, x) {
      var more := LooksAt(place, acts, x);
      assert EmptyLater(place, acts, more);
    } else {
      forall x | x in s.left ensures !CellAt(s, x).Null? {
        EmptyIsUnused(place, acts, x);
        assert !RegisterInProgress(place, acts, x);
      }
      forall more: seq<Act> ensures !EmptyLater(place, acts, more) {
        if forall i | 0 <= i < |more| :: !more[i].Wait? {
          NoneEmptyLater(place, acts, more);
        }
      }
    }
  }

  /** A slot of the snapshot that has never been stored to still has its mark. */
  lemma UnusedIsMarked(place: Placement, acts: seq<Act>, x: Slot)
    requires SnapshotTaken(Run(Init(), place, acts)) && RegisterInProgress(place, acts, x)
    ensures var s := Run(Init(), place, acts); x in s.bits && CellAt(s, x).Null?
  {
    RunKeepsNullInv(place, acts);
    EmptyIsUnused(place, acts, x);
  }

  /** The waiter alone, three more accesses: it enters the slot's shard and loads the pointer. */
  lemma LooksAt(place: Placement, acts: seq<Act>, x: Slot) returns (more: seq<Act>)
    requires SnapshotTaken(Run(Init(), place, acts)) && RegisterInProgress(place, acts, x)
    ensures EmptyLater(place, acts, more)
  {
    var s, step := Run(Init(), place, acts), WaiterStep(x);
    UnusedIsMarked(place, acts, x);
    var s1 := Next(s, place, step);
    WaiterLeavesRefs(s, place, step);
    assert s1.waiter.Choose? && x in s1.left;
    var s2 := Next(s1, place, step);
    WaiterLeavesRefs(s1, place, step);
    assert s2.waiter.Inside? && x in s2.waiter.rest && x in s2.waiter.entered;
    RunNext(place, acts, step, s);
    RunNext(place, acts + [step], step, s1);
    RunNext(place, acts + [step] + [step], step, s2);
    more := [step, step, step];
    assert acts + more == acts + [step] + [step] + [step];
  }

  lemma {:induction false} RunAppend(s: State, place: Placement, a: seq<Act>, b: seq<Act>)
    ensures Run(s, place, a + b) == Run(Run(s, place, a), place, b)
  {
    if b == [] {
      assert a + b == a;
    } else {
      RunAppend(s, place, a, b[..|b| - 1]);
      assert (a + b)[..|a + b| - 1] == a + b[..|b| - 1];
    }
  }

  lemma {:induction false} SnapshotSteps(s: State, place: Placement, x: Slot, n: nat)
    requires s.waiter == Snapshot(0) && n <= SHARDS && x in s.bits && x.shard == 0
    ensures var e := Run(s, place, seq(n, _ => WaiterStep(x)));
      e.waiter == Snapshot(n) && e.bits == s.bits && e.cells == s.cells && e.pcs == s.pcs && (n > 0 ==> x in e.left)
  {
    if n > 0 {
      SnapshotSteps(s, place, x, n - 1);
      assert seq(n, _ => WaiterStep(x))[..n - 1] == seq(n - 1, _ => WaiterStep(x));
    }
  }

  lemma RunNext(place: Placement, acts: seq<Act>, act: Act, s: State)
    requires Run(Init(), place, acts) == s
    ensures Run(Init(), place, acts + [act]) == Next(s, place, act)
  {
    assert (acts + [act])[..|acts|] == acts;
  }

  // ---- calls made alone ----

  lemma {:induction false} FirstFreeIsLowest(bits: set<nat>, n: nat)
    requires n <= CAPACITY
    ensures var p := FirstFree(bits, n);
      (forall q | n <= q < p :: q in bits) && (p == CAPACITY <==> forall q | n <= q < CAPACITY :: q in bits)
    decreases CAPACITY - n
  {
    if n < CAPACITY && n in bits { FirstFreeIsLowest(bits, n + 1); }
  }

  /** One step of a reader leads from s to e. Unfolded only where MovesNow is mentioned. */
  ghost predicate Moves(s: State, e: State, place: Placement, act: Act) {
    forall u: Unfold :: MovesNow(u, s, e, place, act)
  }

  ghost predicate MovesNow(u: Unfold, s: State, e: State, place: Placement, act: Act) {
    e == Next(s, place, act)
  }

  lemma FourSteps(s: State, place: Placement, a: Act, b: Act, c: Act, d: Act) returns (s1: State, s2: State, s3: State, s4: State)
    ensures Moves(s, s1, place, a) && Moves(s1, s2, place, b) && Moves(s2, s3, place, c) && Moves(s3, s4, place, d)
    ensures Run(s, place, [a, b, c, d]) == s4
  {
    s1 := Next(s, place, a);
    s2 := Next(s1, place, b);
    s3 := Next(s2, place, c);
    s4 := Next(s3, place, d);
    assert [a, b, c, d][..3] == [a, b, c] && [a, b, c][..2] == [a, b] && [a, b][..1] == [a] && [a][..0] == [];
    assert Run(s, place, [a]) == s1;
    assert Run(s, place, [a, b]) == s2;
    assert Run(s, place, [a, b, c]) == s3;
  }

  lemma ReaderMoves(s: State, e: State, place: Placement, act: Act)
    requires IsReaderStep(act) && Moves(s, e, place, act)
    ensures var a := Apply(s, place, act); e.bits == a.bits && e.cells == a.cells && e.qstate == a.qstate && e.pcs == a.pcs && e.flags == s.flags
  {
    assert MovesNow(Unfold, s, e, place, act);
  }

  lemma CallMoves(s: State, e: State, place: Placement, r: Ref)
    requires PcOf(s, r).Out? && Moves(s, e, place, Register(r))
    ensures PcOf(e, r) == Load && e.bits == s.bits && e.cells == s.cells && e.flags == s.flags && QState(e, r) == 0
  {
    ReaderMoves(s, e, place, Register(r));
  }

  lemma LoadMoves(s: State, e: State, place: Placement, r: Ref)
    requires PcOf(s, r) == Load && Moves(s, e, place, Advance(r, false))
    ensures var shard := place(r) % SHARDS; var bits := Bitmap(s, shard);
      PcOf(e, r) == if FirstFree(bits, 0) == CAPACITY then Out else Claim(bits, shard in s.flags)
    ensures e.bits == s.bits && e.cells == s.cells && e.flags == s.flags && QState(e, r) == QState(s, r)
  {
    ReaderMoves(s, e, place, Advance(r, false));
  }

  lemma ClaimMoves(s: State, e: State, place: Placement, r: Ref)
    requires var shard := place(r) % SHARDS; PcOf(s, r) == Claim(Bitmap(s, shard), shard in s.flags) && Moves(s, e, place, Advance(r, false))
    ensures var shard := place(r) % SHARDS; var x := Slot(shard, FirstFree(Bitmap(s, shard), 0));
      PcOf(e, r) == Publish(x) && e.bits == s.bits + {x} && e.cells == s.cells && QState(e, r) == QState(s, r)
  {
    ReaderMoves(s, e, place, Advance(r, false));
  }

  lemma PublishMoves(s: State, e: State, place: Placement, r: Ref, x: Slot)
    requires PcOf(s, r) == Publish(x) && Moves(s, e, place, Advance(r, false))
    ensures PcOf(e, r) == Active(x) && e.bits == s.bits && e.cells == s.cells[x := Of(r)] && QState(e, r) == QState(s, r)
  {
    ReaderMoves(s, e, place, Advance(r, false));
  }

  lemma OutStays(s: State, e: State, place: Placement, r: Ref)
    requires PcOf(s, r).Out? && Moves(s, e, place, Advance(r, false))
    ensures PcOf(e, r).Out? && e.bits == s.bits && e.cells == s.cells
  {
    ReaderMoves(s, e, place, Advance(r, false));
  }

  /** The lowest clear bit of a shard, by the slots marked. */
  lemma LowestClear(s: State, shard: nat) returns (p: nat)
    ensures p == FirstFree(Bitmap(s, shard), 0) <= CAPACITY
    ensures p == CAPACITY <==> forall q: nat | q < CAPACITY :: Slot(shard, q) in s.bits
    ensures forall q: nat | q < p :: Slot(shard, q) in s.bits
    ensures p < CAPACITY ==> Slot(shard, p) !in s.bits
  {
    var bits := Bitmap(s, shard);
    p := FirstFree(bits, 0);
    FirstFreeIsLowest(bits, 0);
    forall q: nat | q < CAPACITY ensures q in bits <==> Slot(shard, q) in s.bits {}
  }

  /** What a call of qsbr_register makes of the state when it gets the p-th bit of the shard. */
  ghost predicate Registered(s: State, e: State, r: Ref, x: Slot) {
    if x.pos == CAPACITY then PcOf(e, r).Out? && e.bits == s.bits && e.cells == s.cells
    else x !in s.bits && PcOf(e, r) == Active(x) && e.bits == s.bits + {x} && e.cells == s.cells[x := Of(r)] && QState(e, r) == 0
  }

  lemma FourMoves(s: State, s1: State, s2: State, s3: State, s4: State, place: Placement, r: Ref, p: nat)
    requires PcOf(s, r).Out? && p == FirstFree(Bitmap(s, place(r) % SHARDS), 0) <= CAPACITY
    requires p < CAPACITY ==> Slot(place(r) % SHARDS, p) !in s.bits
    requires Moves(s, s1, place, Register(r)) && Moves(s1, s2, place, Advance(r, false))
    requires Moves(s2, s3, place, Advance(r, false)) && Moves(s3, s4, place, Advance(r, false))
    ensures Registered(s, s4, r, Slot(place(r) % SHARDS, p))
  {
    var shard := place(r) % SHARDS;
    CallMoves(s, s1, place, r);
    assert Bitmap(s1, shard) == Bitmap(s, shard);
    LoadMoves(s1, s2, place, r);
    if p == CAPACITY {
      OutStays(s2, s3, place, r);
      OutStays(s3, s4, place, r);
    } else {
      assert Bitmap(s2, shard) == Bitmap(s, shard);
      ClaimMoves(s2, s3, place, r);
      PublishMoves(s3, s4, place, r, Slot(shard, p));
    }
  }

  /** qsbr_register without anybody in between: it takes the lowest clear bit of the reader's shard and stores the ref
      there, and fails exactly when all bits are set. */
  lemma RegisterAlone(s: State, place: Placement, r: Ref) returns (p: nat)
    requires PcOf(s, r).Out?
    ensures p <= CAPACITY && (p == CAPACITY <==> forall q: nat | q < CAPACITY :: Slot(place(r) % SHARDS, q) in s.bits)
    ensures forall q: nat | q < p :: Slot(place(r) % SHARDS, q) in s.bits
    ensures var e, x := Run(s, place, [Register(r), Advance(r, false), Advance(r, false), Advance(r, false)]), Slot(place(r) % SHARDS, p);
      if p == CAPACITY then PcOf(e, r).Out? && e.bits == s.bits && e.cells == s.cells
      else x !in s.bits && PcOf(e, r) == Active(x) && e.bits == s.bits + {x} && e.cells == s.cells[x := Of(r)] && QState(e, r) == 0
  {
    p := LowestClear(s, place(r) % SHARDS);
    var s1, s2, s3, s4 := FourSteps(s, place, Register(r), Advance(r, false), Advance(r, false), Advance(r, false));
    FourMoves(s, s1, s2, s3, s4, place, r, p);
  }

  lemma BeginMoves(s: State, e: State, place: Placement, r: Ref, x: Slot)
    requires (PcOf(s, r) == Active(x) || PcOf(s, r) == Parked(x)) && Moves(s, e, place, Unregister(r))
    ensures PcOf(e, r) == Retract(x) && e.bits == s.bits && e.cells == s.cells && e.flags == s.flags
  {
    ReaderMoves(s, e, place, Unregister(r));
  }

  lemma RetractMoves(s: State, e: State, place: Placement, r: Ref, x: Slot)
    requires PcOf(s, r) == Retract(x) && Moves(s, e, place, Advance(r, false))
    ensures PcOf(e, r) == Release(x) && e.bits == s.bits && e.cells == s.cells[x := Target] && e.flags == s.flags
  {
    ReaderMoves(s, e, place, Advance(r, false));
  }

  lemma ReleaseMoves(s: State, e: State, place: Placement, r: Ref, x: Slot)
    requires PcOf(s, r) == Release(x) && Moves(s, e, place, Advance(r, false))
    ensures PcOf(e, r) == Leave(x.shard) && e.bits == s.bits - {x} && e.cells == s.cells && e.flags == s.flags
  {
    ReaderMoves(s, e, place, Advance(r, false));
  }

  lemma LeaveMoves(s: State, e: State, place: Placement, r: Ref, shard: nat)
    requires PcOf(s, r) == Leave(shard) && shard !in s.flags && Moves(s, e, place, Advance(r, false))
    ensures PcOf(e, r).Out? && e.bits == s.bits && e.cells == s.cells
  {
    ReaderMoves(s, e, place, Advance(r, false));
  }

  /** qsbr_unregister without anybody in between, while no waiter is in the shard: the mark is gone and the cell no longer
      leads to the reader. */
  lemma UnregisterAlone(s: State, place: Placement, r: Ref, x: Slot)
    requires PcOf(s, r) == Active(x) || PcOf(s, r) == Parked(x)
    requires x.shard !in s.flags
    ensures var e := Run(s, place, [Unregister(r), Advance(r, false), Advance(r, false), Advance(r, false)]);
      PcOf(e, r).Out? && e.bits == s.bits - {x} && e.cells == s.cells[x := Target]
  {
    var s1, s2, s3, s4 := FourSteps(s, place, Unregister(r), Advance(r, false), Advance(r, false), Advance(r, false));
    BeginMoves(s, s1, place, r, x);
    RetractMoves(s1, s2, place, r, x);
    ReleaseMoves(s2, s3, place, r, x);
    LeaveMoves(s3, s4, place, r, x.shard);
  }

  /** Only the waiter has moved. */
  ghost predicate OnlyWaiter(s: State, e: State) {
    e.bits == s.bits && e.cells == s.cells && e.qstate == s.qstate && e.pcs == s.pcs && e.goal == s.goal
  }

  /** The waiter will drop the slot when it looks at it. */
  ghost predicate Settled(s: State, x: Slot) {
    x in s.bits ==> CellAt(s, x) == Target || (CellAt(s, x).Of? && QState(s, CellAt(s, x).ref) == s.goal)
  }

  lemma WaiterMoves(s: State, place: Placement, pick: Slot)
    requires !s.waiter.SetTarget?
    ensures var e, a := Next(s, place, WaiterStep(pick)), AdvanceWaiter(s, pick);
      OnlyWaiter(s, e) && e.target == s.target && e.waiter == a.waiter && e.left == a.left && e.taken == a.taken
  {
  }

  /** The waiter alone works off the slots of a shard that are all settled. */
  lemma {:induction false} ShardEnds(s: State, place: Placement, rest: set<Slot>) returns (more: seq<Act>)
    requires s.waiter.Inside? && s.waiter.rest == rest <= s.left && s.target == s.goal
    requires forall x | x in rest :: x.shard == s.waiter.shard && (x in s.waiter.entered ==> x in s.bits) && Settled(s, x)
    ensures forall i | 0 <= i < |more| :: more[i].WaiterStep?
    ensures var e := Run(s, place, more); OnlyWaiter(s, e) && e.target == s.target && e.waiter.Choose? && e.left == s.left - rest
    decreases |rest|
  {
    if rest == {} {
      var y := Slot(0, 0);
      WaiterMoves(s, place, y);
      more := [WaiterStep(y)];
      assert more[..0] == [] && Run(s, place, more[..0]) == s;
    } else {
      var x :| x in rest;
      WaiterMoves(s, place, x);
      var s1 := Next(s, place, WaiterStep(x));
      var steps := [WaiterStep(x)];
      assert Run(s, place, steps) == s1 by { assert steps[..0] == []; }
      if x in s.waiter.entered {
        WaiterMoves(s1, place, x);
        s1 := Next(s1, place, WaiterStep(x));
        assert ([WaiterStep(x)] + [WaiterStep(x)])[..1] == [WaiterStep(x)];
        steps := [WaiterStep(x)] + [WaiterStep(x)];
      }
      assert Run(s, place, steps) == s1 && s1.left == s.left - {x} && s1.waiter.Inside? && s1.waiter.rest == rest - {x};
      forall z | z in rest - {x} ensures Settled(s1, z) { assert Settled(s, z); }
      var later := ShardEnds(s1, place, rest - {x});
      RunAppend(s, place, steps, later);
      assert s.left - {x} - (rest - {x}) == s.left - rest;
      more := steps + later;
    }
  }

  /** So it works off all of them and returns. */
  lemma {:induction false} WorkEnds(s: State, place: Placement) returns (more: seq<Act>)
    requires s.waiter.Choose? && s.target == s.goal && forall x | x in s.left :: Settled(s, x)
    ensures forall i | 0 <= i < |more| :: more[i].WaiterStep?
    ensures Run(s, place, more).waiter.Idle?
    decreases |s.left|
  {
    if s.left == {} {
      more := [WaiterStep(Slot(0, 0))];
      assert more[..0] == [] && Run(s, place, more[..0]) == s;
    } else {
      var x :| x in s.left;
      WaiterMoves(s, place, x);
      var s1 := Next(s, place, WaiterStep(x));
      var one := [WaiterStep(x)];
      assert Run(s, place, one) == s1 by { assert one[..0] == []; }
      var rest := SlotsOf(s.left, x.shard);
      assert x in rest && s1.waiter.rest == rest;
      forall z | z in rest ensures Settled(s1, z) { assert Settled(s, z); }
      var visit := ShardEnds(s1, place, rest);
      var s2 := Run(s1, place, visit);
      forall z | z in s2.left ensures Settled(s2, z) { assert Settled(s, z); }
      assert s2.left == s.left - rest && |s.left - rest| == |s.left| - |rest|;
      var later := WorkEnds(s2, place);
      RunAppend(s, place, one, visit);
      RunAppend(s, place, one + visit, later);
      more := one + visit + later;
    }
  }

  /** The snapshot, by the waiter alone: what it has to work off was marked. */
  lemma {:induction false} SnapshotAlone(s: State, place: Placement, n: nat)
    requires s.waiter == Snapshot(0) && s.left == {} && n <= SHARDS
    ensures var e := Run(s, place, seq(n, _ => WaiterStep(Slot(0, 0))));
      OnlyWaiter(s, e) && e.target == s.target && e.waiter == Snapshot(n) && e.left <= s.bits
  {
    if n > 0 {
      SnapshotAlone(s, place, n - 1);
      assert seq(n, _ => WaiterStep(Slot(0, 0)))[..n - 1] == seq(n - 1, _ => WaiterStep(Slot(0, 0)));
      WaiterMoves(Run(s, place, seq(n - 1, _ => WaiterStep(Slot(0, 0)))), place, Slot(0, 0));
    }
  }

  /** Everybody who is registered and not parked has reported v last, and nobody is registering. */
  ghost predicate AllReported(place: Placement, acts: seq<Act>, v: int) {
    forall r: Ref :: ReportsOrQuiet(place, acts, v, r)
  }

  ghost predicate ReportsOrQuiet(place: Placement, acts: seq<Act>, v: int, r: Ref) {
    var pc := PcOf(Run(Init(), place, acts), r);
    !pc.Publish? && (pc.Active? || pc.Retract? ==> Reported(place, acts, r) == v)
  }

  lemma ReportedSettles(place: Placement, acts: seq<Act>, v: int, x: Slot)
    requires AllReported(place, acts, v) && x in Run(Init(), place, acts).bits
    ensures var s := Run(Init(), place, acts);
      CellAt(s, x) == Target || (CellAt(s, x).Of? && QState(s, CellAt(s, x).ref) == v)
  {
    var s := Run(Init(), place, acts);
    RunKeepsNullInv(place, acts);
    assert Filled(s, x) && CellOk(s, x);
    var r: Ref :| Owner(s, x, r);
    assert ReportsOrQuiet(place, acts, v, r);
    if CellAt(s, x).Of? {
      assert ReportsOrQuiet(place, acts, v, CellAt(s, x).ref);
      StateIsReport(place, acts, CellAt(s, x).ref);
    }
  }

  /** From the call to the end of the snapshot, by the waiter alone. */
  lemma SnapshotEnds(s: State, place: Placement, v: int) returns (more: seq<Act>, e: State)
    requires s.waiter.Idle?
    ensures (forall i | 0 <= i < |more| :: more[i].WaiterStep?) && e == Run(Started(s, place, v), place, more)
    ensures e.waiter.Choose? && e.target == e.goal == v && e.left <= e.bits
    ensures e.bits == s.bits && e.cells == s.cells && e.qstate == s.qstate && e.pcs == s.pcs
  {
    var y, b := Slot(0, 0), Started(s, place, v);
    WaiterLeavesRefs(s, place, Wait(v));
    var s1 := Next(b, place, WaiterStep(y));
    WaiterLeavesRefs(b, place, WaiterStep(y));
    var one, look := [WaiterStep(y)], seq(SHARDS, _ => WaiterStep(y));
    SnapshotAlone(s1, place, SHARDS);
    var s2 := Run(s1, place, look);
    WaiterMoves(s2, place, y);
    e := Next(s2, place, WaiterStep(y));
    assert Run(b, place, one) == s1 by { assert one[..0] == []; }
    RunAppend(b, place, one, look);
    assert (one + look + one)[..1 + SHARDS] == one + look;
    more := one + look + one;
  }

  /** The wait ends: once every registered reader has reported the target or is parked, and nobody is registering, the
      waiter returns by steps of its own. */
  lemma WaitReturns(place: Placement, before: seq<Act>, v: int) returns (more: seq<Act>)
    requires Run(Init(), place, before).waiter.Idle? && AllReported(place, before, v)
    ensures forall i | 0 <= i < |more| :: more[i].WaiterStep?
    ensures Run(Init(), place, Waiting(before, v, more)).waiter.Idle?
  {
    var s := Run(Init(), place, before);
    var first, e := SnapshotEnds(s, place, v);
    forall x | x in e.left ensures Settled(e, x) { ReportedSettles(place, before, v, x); }
    var later := WorkEnds(e, place);
    RunAppend(Started(s, place, v), place, first, later);
    more := first + later;
    WaitingRuns(place, before, v, more);
  }

  function OneShard(): Placement {
    r => 0
  }

  /** A reader begins to register, finds the first slot free and claims it. */
  lemma FirstClaim() returns (acts: seq<Act>)
    ensures var s := Run(Init(), OneShard(), acts); s.waiter.Idle? && Slot(0, 0) in s.bits && s.cells == map[]
  {
    var place := OneShard();
    var s1 := Next(Init(), place, Register(0));
    assert Bitmap(s1, 0) == {} && FirstFree({}, 0) == 0;
    var s2 := Next(s1, place, Advance(0, false));
    RunNext(place, [], Register(0), Init());
    RunNext(place, [] + [Register(0)], Advance(0, false), s1);
    RunNext(place, [] + [Register(0)] + [Advance(0, false)], Advance(0, false), s2);
    acts := [] + [Register(0)] + [Advance(0, false)] + [Advance(0, false)];
  }

  /** Then a wait begins. */
  lemma ClaimThenWait() returns (acts: seq<Act>)
    ensures var s := Run(Init(), OneShard(), acts); s.waiter == Snapshot(0) && Slot(0, 0) in s.bits && CellAt(s, Slot(0, 0)).Null?
  {
    var x, place := Slot(0, 0), OneShard();
    var claim := FirstClaim();
    var s := Run(Init(), place, claim);
    WaiterLeavesRefs(s, place, Wait(1));
    var s1 := Next(s, place, Wait(1));
    WaiterLeavesRefs(s1, place, WaiterStep(x));
    RunNext(place, claim, Wait(1), s);
    RunNext(place, claim + [Wait(1)], WaiterStep(x), s1);
    acts := claim + [Wait(1)] + [WaiterStep(x)];
  }

  /** From there the waiter loads the empty cell. */
  lemma WaitLoadsEmptyCell(acts: seq<Act>, x: Slot, s: State) returns (all: seq<Act>)
    requires Run(Init(), OneShard(), acts) == s && s.waiter == Snapshot(SHARDS)
    requires x in s.bits && x in s.left && CellAt(s, x).Null?
    ensures var e := Run(Init(), OneShard(), all); e.waiter.Deref? && e.waiter.cell.Null?
  {
    var step, place := WaiterStep(x), OneShard();
    var s1 := Next(s, place, step);
    var s2 := Next(s1, place, step);
    assert s1.waiter.Choose? && x in s1.left;
    assert s2.waiter.Inside? && x in s2.waiter.rest && x in s2.waiter.entered;
    RunNext(place, acts, step, s);
    RunNext(place, acts + [step], step, s1);
    RunNext(place, acts + [step] + [step], step, s2);
    all := acts + [step] + [step] + [step];
  }

  /** That happens: in a wait that starts right after the first registrant of a slot has claimed it. */
  lemma EmptyCellHappens() returns (acts: seq<Act>)
    ensures var s := Run(Init(), OneShard(), acts); s.waiter.Deref? && s.waiter.cell.Null?
  {
    var x, place := Slot(0, 0), OneShard();
    var claim := ClaimThenWait();
    var look := seq(SHARDS, _ => WaiterStep(x));
    SnapshotSteps(Run(Init(), place, claim), place, x, SHARDS);
    RunAppend(Init(), place, claim, look);
    acts := WaitLoadsEmptyCell(claim + look, x, Run(Init(), place, claim + look));
  }
}
