/** The one-word reader/writer lock: every interleaving of the atomic instructions of any number of threads. */
module RwLock {
  import opened Sets

  type Tid = nat

  const MODULUS := 0x1_0000_0000

  /** The writer bit: the word's highest bit. */
  const WBIT := 0x8000_0000

  type Word = w: int | 0 <= w < MODULUS

  /** 32-bit addition wraps around. */
  function Add(w: Word, d: int): Word {
    (w + d) % MODULUS
  }

  function HasWriter(w: Word): bool {
    w / WBIT == 1
  }

  /** How an operation repeats its attempt: not at all, up to nr more times, or until it succeeds. */
  datatype Mode = Once | Times(nr: nat) | Forever

  /** Where a thread is; each name is the instruction on the lock word it will execute next. */
  datatype Pc =
    | Idle
    | LpLoad                          // trylock_read_lp: look before adding
    | ReadAdd(mode: Mode)             // add one reader
    | ReadPoll(nr: nat)               // trylock_read_nr: the reader is added already, wait for the writer to leave
    | ReadBack(mode: Mode)            // take the reader back
    | ReadSpin                        // lock_read: wait for the writer to leave, nothing added
    | Reading
    | WriteLoad(mode: Mode)
    | WriteCas(mode: Mode)            // loaded 0; set the writer bit if it still is
    | WriteSpin                       // lock_write: wait for 0
    | HpLoad(mode: Mode)
    | HpCas(mode: Mode, v0: Word)     // loaded v0; set the writer bit if nothing changed
    | HpDrain                         // bit set over active readers: wait for them to leave
    | Writing

  datatype State = State(word: Word, pcs: map<Tid, Pc>)

  /** What a thread that is free to choose does next. */
  datatype Start = TryRead | TryReadLp | TryReadNr(nr: nat) | LockRead
    | TryWrite | TryWriteNr(nr: nat) | LockWrite | TryWriteHp | TryWriteHpNr(nr: nat) | LockWriteHp

  /** The choices a step leaves open: the operation started, whether a weak compare-exchange fails for no reason,
      and whether a writer leaves or becomes a reader. */
  datatype Choice = Choice(start: Start, spurious: bool, toRead: bool)

  function Begin(start: Start): Pc {
    match start
    case TryRead => ReadAdd(Once)
    case TryReadLp => LpLoad
    case TryReadNr(nr) => ReadAdd(Times(nr))
    case LockRead => ReadAdd(Forever)
    case TryWrite => WriteLoad(Once)
    case TryWriteNr(nr) => WriteLoad(Times(nr))
    case LockWrite => WriteLoad(Forever)
    case TryWriteHp => HpLoad(Once)
    case TryWriteHpNr(nr) => HpLoad(Times(nr))
    case LockWriteHp => HpLoad(Forever)
  }

  /** After a failed attempt to write: give up, or try again. */
  function WriteAgain(mode: Mode): Pc {
    match mode
    case Once => Idle
    case Times(nr) => if nr == 0 then Idle else WriteLoad(Times(nr - 1))
    case Forever => WriteSpin
  }

  function HpAgain(mode: Mode): Pc {
    match mode
    case Once => Idle
    case Times(nr) => if nr == 0 then Idle else HpLoad(Times(nr - 1))
    case Forever => HpLoad(Forever)
  }

  /** One atomic instruction: the new word and where the thread goes. */
  function Execute(w: Word, pc: Pc, c: Choice): (Word, Pc) {
    match pc
    case Idle => (w, Begin(c.start))
    case LpLoad => (w, if HasWriter(w) then Idle else ReadAdd(Once))
    case ReadAdd(mode) =>
      (Add(w, 1),
       if !HasWriter(w) then Reading
       else if mode.Times? then ReadPoll(mode.nr)
       else ReadBack(mode))
    case ReadPoll(nr) =>
      (w, if !HasWriter(w) then Reading else if nr == 0 then ReadBack(Once) else ReadPoll(nr - 1))
    case ReadBack(mode) => (Add(w, -1), if mode.Forever? then ReadSpin else Idle)
    case ReadSpin => (w, if HasWriter(w) then ReadSpin else ReadAdd(Forever))
    case Reading => (Add(w, -1), Idle)
    case WriteLoad(mode) => (w, if w == 0 then WriteCas(mode) else WriteAgain(mode))
    case WriteCas(mode) => if w == 0 && !c.spurious then (WBIT, Writing) else (w, WriteAgain(mode))
    case WriteSpin => (w, if w == 0 then WriteLoad(Forever) else WriteSpin)
    case HpLoad(mode) => (w, if HasWriter(w) then HpAgain(mode) else HpCas(mode, w))
    case HpCas(mode, v0) =>
      if w == v0 && !c.spurious then (Add(v0, WBIT), if v0 == 0 then Writing else HpDrain) else (w, HpAgain(mode))
    case HpDrain => (w, if w == WBIT then Writing else HpDrain)
    case Writing => if c.toRead then (Add(w, 1 - WBIT), Reading) else (Add(w, -WBIT), Idle)
  }

  function Next(s: State, t: Tid, c: Choice): State {
    if t in s.pcs then
      var (w, pc) := Execute(s.word, s.pcs[t], c);
      State(w, s.pcs[t := pc])
    else s
  }

  /** A run: any schedule of threads and choices. */
  function Run(s: State, schedule: seq<(Tid, Choice)>): State {
    if schedule == [] then s
    else
      var last := schedule[|schedule| - 1];
      Next(Run(s, schedule[..|schedule| - 1]), last.0, last.1)
  }

  // ---- the invariant ----

  /** Has added one to the word: inside as a reader, or in the middle of an attempt. */
  predicate CountsAsReader(pc: Pc) {
    pc.Reading? || pc.ReadPoll? || pc.ReadBack?
  }

  /** Owns the writer bit: inside as a writer, or waiting for readers to leave. */
  predicate OwnsBit(pc: Pc) {
    pc.Writing? || pc.HpDrain?
  }

  ghost function Readers(s: State): set<Tid> {
    set t | t in s.pcs && CountsAsReader(s.pcs[t])
  }

  ghost function Writers(s: State): set<Tid> {
    set t | t in s.pcs && OwnsBit(s.pcs[t])
  }

  /** A compare-exchange of the high-priority path was prepared when no writer was inside. */
  ghost predicate Prepared(pc: Pc) {
    pc.HpCas? ==> !HasWriter(pc.v0)
  }

  ghost predicate Inv(s: State) {
    && |s.pcs| < WBIT
    && s.word == WBIT * |Writers(s)| + |Readers(s)|
    && |Writers(s)| <= 1
    && (forall t | t in s.pcs :: Prepared(s.pcs[t]))
    && (forall t, u | t in s.pcs && u in s.pcs :: s.pcs[t].Writing? ==> !s.pcs[u].Reading?)
  }

  /** At most one writer, and no reader beside it. */
  ghost predicate Exclusive(s: State) {
    forall t, u | t in s.pcs && u in s.pcs && t != u && s.pcs[t].Writing? :: !s.pcs[u].Reading? && !s.pcs[u].Writing?
  }

  lemma {:induction false} OneOwner(s: State, t: Tid, u: Tid)
    requires |Writers(s)| <= 1 && t in Writers(s) && u in Writers(s)
    ensures t == u
  {
    SubsetSize({t, u}, Writers(s));
  }

  lemma SizeAfter<T>(a: set<T>, b: set<T>, t: T)
    requires forall u | u != t :: u in a <==> u in b
    ensures |b| == |a| - (if t in a then 1 else 0) + (if t in b then 1 else 0)
  {
    assert a - {t} == b - {t};
    assert |a - {t}| == |a| - (if t in a then 1 else 0);
    assert |b - {t}| == |b| - (if t in b then 1 else 0);
  }

  /** Counts after a state in which only one thread moved. */
  lemma CountsAfter(s: State, s': State, t: Tid)
    requires t in s.pcs && t in s'.pcs && s'.pcs == s.pcs[t := s'.pcs[t]]
    ensures |Readers(s')| == |Readers(s)| - (if CountsAsReader(s.pcs[t]) then 1 else 0) + (if CountsAsReader(s'.pcs[t]) then 1 else 0)
    ensures |Writers(s')| == |Writers(s)| - (if OwnsBit(s.pcs[t]) then 1 else 0) + (if OwnsBit(s'.pcs[t]) then 1 else 0)
    ensures |s'.pcs| == |s.pcs|
  {
    SizeAfter(Readers(s), Readers(s'), t);
    SizeAfter(Writers(s), Writers(s'), t);
    assert s'.pcs.Keys == s.pcs.Keys;
    assert |s'.pcs.Keys| == |s'.pcs| && |s.pcs.Keys| == |s.pcs|;
  }

  /** The word never overflows into the writer bit: there are fewer readers than it has room for. */
  lemma FewReaders(s: State)
    requires |s.pcs| < WBIT
    ensures |Readers(s)| < WBIT
  {
    SubsetSize(Readers(s), s.pcs.Keys);
    assert |s.pcs.Keys| == |s.pcs|;
  }

  lemma WordTells(s: State)
    requires Inv(s)
    ensures HasWriter(s.word) <==> |Writers(s)| == 1
    ensures s.word == 0 <==> Readers(s) == {} && Writers(s) == {}
    ensures s.word == WBIT <==> Readers(s) == {} && |Writers(s)| == 1
  {
    FewReaders(s);
  }

  /** What one instruction does to the word is what it does to the thread's share of it. */
  lemma ExecuteCounts(w: Word, pc: Pc, c: Choice, readers: nat, writers: nat)
    requires w == WBIT * writers + readers && writers <= 1 && readers < WBIT && Prepared(pc)
    requires CountsAsReader(pc) ==> readers > 0
    requires OwnsBit(pc) ==> writers == 1
    ensures var (w', pc') := Execute(w, pc, c);
      var readers' := readers - (if CountsAsReader(pc) then 1 else 0) + (if CountsAsReader(pc') then 1 else 0);
      var writers' := writers - (if OwnsBit(pc) then 1 else 0) + (if OwnsBit(pc') then 1 else 0);
      && (readers' < WBIT ==> w' == WBIT * writers' + readers') && writers' <= 1 && Prepared(pc')
      && (pc'.Reading? && !pc.Reading? && !pc.Writing? ==> writers == 0)
      && (pc'.Writing? && !pc.Writing? ==> readers == 0)
      && (pc.Writing? && pc'.Reading? ==> writers' == 0)
  {
  }

  lemma StepKeepsInv(s: State, t: Tid, c: Choice)
    requires Inv(s)
    ensures Inv(Next(s, t, c))
  {
    if t in s.pcs {
      var s' := Next(s, t, c);
      CountsAfter(s, s', t);
      FewReaders(s);
      FewReaders(s');
      assert CountsAsReader(s.pcs[t]) ==> t in Readers(s);
      assert OwnsBit(s.pcs[t]) ==> t in Writers(s);
      ExecuteCounts(s.word, s.pcs[t], c, |Readers(s)|, |Writers(s)|);
      StepExcludes(s, s', t);
    }
  }

  /** A thread comes inside only when the counts show nobody it must not meet. */
  lemma StepExcludes(s: State, s': State, t: Tid)
    requires Inv(s) && t in s.pcs && t in s'.pcs && s'.pcs == s.pcs[t := s'.pcs[t]]
    requires s'.pcs[t].Reading? && !s.pcs[t].Reading? ==> |Writers(s)| == 0 || (s.pcs[t].Writing? && |Writers(s)| == 1)
    requires s'.pcs[t].Writing? && !s.pcs[t].Writing? ==> |Readers(s)| == 0
    ensures forall u, v | u in s'.pcs && v in s'.pcs :: s'.pcs[u].Writing? ==> !s'.pcs[v].Reading?
  {
    forall u, v | u in s'.pcs && v in s'.pcs && s'.pcs[u].Writing?
      ensures !s'.pcs[v].Reading?
    {
      if u == t && v != t && !s.pcs[t].Writing? {
        assert s.pcs[v].Reading? ==> v in Readers(s);
      } else if v == t && u != t {
        assert u in Writers(s);
        if s.pcs[t].Writing? { OneOwner(s, t, u); }
      }
    }
  }

  // ---- every run ----

  /** From any state in order, whatever the schedule: at every point a writer inside excludes all readers and all
      other writers, and the word is the writer bit plus the readers inside plus those in mid-attempt. */
  lemma {:induction false} AlwaysExclusive(s: State, schedule: seq<(Tid, Choice)>)
    requires Inv(s)
    ensures Inv(Run(s, schedule)) && Exclusive(Run(s, schedule))
  {
    if schedule != [] {
      var last := schedule[|schedule| - 1];
      AlwaysExclusive(s, schedule[..|schedule| - 1]);
      StepKeepsInv(Run(s, schedule[..|schedule| - 1]), last.0, last.1);
    }
    var e := Run(s, schedule);
    forall t, u | t in e.pcs && u in e.pcs && t != u && e.pcs[t].Writing?
      ensures !e.pcs[u].Reading? && !e.pcs[u].Writing?
    {
      assert t in Writers(e);
      if e.pcs[u].Writing? {
        assert u in Writers(e);
        OneOwner(e, t, u);
      }
    }
  }

  /** rwlock_init: a lock nobody is at, for fewer threads than the reader part can count. */
  lemma InitInv(threads: set<Tid>)
    requires |threads| < WBIT
    ensures Inv(State(0, map t | t in threads :: Idle))
  {
    var s := State(0, map t | t in threads :: Idle);
    assert s.pcs.Keys == threads && |s.pcs.Keys| == |s.pcs|;
    assert Readers(s) == {} && Writers(s) == {};
  }

  // ---- what the tests on the word mean ----

  /** A waiting high-priority writer sees exactly the writer bit when, and only when, nobody else counts on the lock. */
  lemma DrainEnds(s: State, t: Tid)
    requires Inv(s) && t in s.pcs && s.pcs[t].HpDrain?
    ensures s.word == WBIT <==> forall u | u in s.pcs && u != t :: !CountsAsReader(s.pcs[u]) && !OwnsBit(s.pcs[u])
  {
    WordTells(s);
    assert t in Writers(s);
    forall u | u in s.pcs && OwnsBit(s.pcs[u]) ensures u == t { OneOwner(s, t, u); }
    if s.word == WBIT {
      assert forall u | u in s.pcs && CountsAsReader(s.pcs[u]) :: u in Readers(s);
    } else {
      assert Readers(s) != {};
    }
  }

  /** The word is 0 exactly when every thread is outside and has nothing outstanding. */
  lemma FreeIsZero(s: State)
    requires Inv(s)
    ensures s.word == 0 <==> forall u | u in s.pcs :: !CountsAsReader(s.pcs[u]) && !OwnsBit(s.pcs[u])
  {
    WordTells(s);
    if s.word == 0 {
      assert forall u | u in s.pcs && CountsAsReader(s.pcs[u]) :: u in Readers(s);
      assert forall u | u in s.pcs && OwnsBit(s.pcs[u]) :: u in Writers(s);
    } else {
      assert Readers(s) + Writers(s) != {};
      var u :| u in Readers(s) + Writers(s);
    }
  }

  // ---- what the calls come to ----

  predicate IsRead(call: Start) {
    call.TryRead? || call.TryReadLp? || call.TryReadNr? || call.LockRead?
  }

  predicate IsTry(call: Start) {
    !call.LockRead? && !call.LockWrite? && !call.LockWriteHp?
  }

  predicate IsHp(call: Start) {
    call.TryWriteHp? || call.TryWriteHpNr? || call.LockWriteHp?
  }

  predicate InCall(pc: Pc) {
    !pc.Idle? && !pc.Reading? && !pc.Writing?
  }

  /** The call a thread made last, if any, and whether its last step was rwlock_write_to_read. */
  datatype Past = NoCall | Called(call: Start, lowered: bool)

  ghost function PastOf(s: State, schedule: seq<(Tid, Choice)>, t: Tid): Past {
    if schedule == [] then NoCall
    else
      var before, last := schedule[..|schedule| - 1], schedule[|schedule| - 1];
      var pcs, past := Run(s, before).pcs, PastOf(s, before, t);
      if last.0 != t || t !in pcs then past
      else PastAfter(past, pcs[t], last.1)
  }

  ghost function PastAfter(past: Past, pc: Pc, c: Choice): Past {
    if pc.Idle? then Called(c.start, false)
    else if past.NoCall? then NoCall
    else Called(past.call, pc.Writing? && c.toRead)
  }

  /** Where a thread can be in a call. */
  ghost predicate Serves(pc: Pc, call: Start) {
    match pc
    case LpLoad => call.TryReadLp?
    case ReadAdd(mode) => IsRead(call) && (mode.Forever? <==> !IsTry(call))
    case ReadBack(mode) => IsRead(call) && (mode.Forever? <==> !IsTry(call))
    case ReadPoll(_) => IsRead(call) && IsTry(call)
    case ReadSpin => call.LockRead?
    case WriteLoad(mode) => !IsRead(call) && !IsHp(call) && (mode.Forever? <==> !IsTry(call))
    case WriteCas(mode) => !IsRead(call) && !IsHp(call) && (mode.Forever? <==> !IsTry(call))
    case WriteSpin => call.LockWrite?
    case HpLoad(mode) => IsHp(call) && (mode.Forever? <==> !IsTry(call))
    case HpCas(mode, _) => IsHp(call) && (mode.Forever? <==> !IsTry(call))
    case HpDrain => IsHp(call)
    case _ => false
  }

  ghost predicate AsCalled(pc: Pc, past: Past) {
    && (!pc.Idle? ==> past.Called?)
    && (InCall(pc) ==> Serves(pc, past.call))
    && (pc.Writing? ==> !IsRead(past.call))
    && (pc.Reading? ==> (IsRead(past.call) <==> !past.lowered))
  }

  lemma StepAsCalled(w: Word, pc: Pc, c: Choice, past: Past)
    requires AsCalled(pc, past)
    ensures AsCalled(Execute(w, pc, c).1, PastAfter(past, pc, c))
  {
  }

  /** Every thread outside. */
  ghost predicate AllIdle(s: State) {
    forall t | t in s.pcs :: s.pcs[t].Idle?
  }

  lemma {:induction false} RunAsCalled(s: State, schedule: seq<(Tid, Choice)>, t: Tid)
    requires AllIdle(s) && t in s.pcs
    ensures t in Run(s, schedule).pcs && AsCalled(Run(s, schedule).pcs[t], PastOf(s, schedule, t))
  {
    if schedule != [] {
      var before, last := schedule[..|schedule| - 1], schedule[|schedule| - 1];
      RunAsCalled(s, before, t);
      if last.0 == t { StepAsCalled(Run(s, before).word, Run(s, before).pcs[t], last.1, PastOf(s, before, t)); }
    }
  }

  /** In every run from a lock nobody is at, a thread is inside as a writer only by a write call, and as a reader only by
      a read call or, after a write call, by rwlock_write_to_read. */
  lemma InsideAsCalled(s: State, schedule: seq<(Tid, Choice)>, t: Tid)
    requires AllIdle(s) && t in s.pcs
    ensures var e, past := Run(s, schedule), PastOf(s, schedule, t);
      && t in e.pcs && (e.pcs[t].Writing? || e.pcs[t].Reading? ==> past.Called?)
      && (e.pcs[t].Writing? ==> !IsRead(past.call))
      && (e.pcs[t].Reading? ==> (IsRead(past.call) <==> !past.lowered))
  {
    RunAsCalled(s, schedule, t);
  }

  /** How a call ends, in every run: a blocking one only inside, a try inside or outside, each on its own side; and
      leaving or lowering is one step. */
  lemma CallEnds(s: State, schedule: seq<(Tid, Choice)>, t: Tid, c: Choice)
    requires AllIdle(s) && t in s.pcs
    ensures var e, past := Run(s, schedule), PastOf(s, schedule, t); var e' := Next(e, t, c);
      && t in e.pcs && t in e'.pcs
      && (InCall(e.pcs[t]) ==> past.Called?
                               && (e'.pcs[t].Idle? ==> IsTry(past.call))
                               && (e'.pcs[t].Reading? ==> IsRead(past.call))
                               && (e'.pcs[t].Writing? ==> !IsRead(past.call)))
      && (e.pcs[t].Reading? ==> e'.pcs[t].Idle?)
      && (e.pcs[t].Writing? ==> if c.toRead then e'.pcs[t].Reading? else e'.pcs[t].Idle?)
  {
    RunAsCalled(s, schedule, t);
    StepAsCalled(Run(s, schedule).word, Run(s, schedule).pcs[t], c, PastOf(s, schedule, t));
  }

  // ---- when a call succeeds, and in how many steps ----

  /** What a thread finds the word to be. */
  datatype Sight = NoWriter | Nobody | WriterIn | SomebodyIn

  predicate Sees(sight: Sight, w: Word) {
    match sight
    case NoWriter => w < WBIT
    case Nobody => w == 0
    case WriterIn => w >= WBIT
    case SomebodyIn => w != 0
  }

  /** Steps the thread itself makes. */
  function OwnSteps(schedule: seq<(Tid, Choice)>, t: Tid): nat {
    if schedule == [] then 0
    else OwnSteps(schedule[..|schedule| - 1], t) + if schedule[|schedule| - 1].0 == t then 1 else 0
  }

  /** The thread's first step starts the call; at each of its later steps, whatever the others do between them, it finds
      the word as the sight says, and no compare-exchange fails for no reason. */
  ghost predicate Calls(s: State, schedule: seq<(Tid, Choice)>, t: Tid, call: Start, sight: Sight) {
    forall i | 0 <= i < |schedule| && schedule[i].0 == t :: CallsAt(s, schedule, t, call, sight, i)
  }

  ghost predicate CallsAt(s: State, schedule: seq<(Tid, Choice)>, t: Tid, call: Start, sight: Sight, i: nat)
    requires i < |schedule|
  {
    if OwnSteps(schedule[..i], t) == 0 then schedule[i].1.start == call
    else !schedule[i].1.spurious && Sees(sight, Run(s, schedule[..i]).word)
  }

  lemma CallsBefore(s: State, schedule: seq<(Tid, Choice)>, t: Tid, call: Start, sight: Sight)
    requires schedule != [] && Calls(s, schedule, t, call, sight)
    ensures Calls(s, schedule[..|schedule| - 1], t, call, sight)
    ensures schedule[|schedule| - 1].0 == t ==> CallsAt(s, schedule, t, call, sight, |schedule| - 1)
  {
    var before := schedule[..|schedule| - 1];
    forall i | 0 <= i < |before| && before[i].0 == t ensures CallsAt(s, before, t, call, sight, i) {
      assert CallsAt(s, schedule, t, call, sight, i) && before[..i] == schedule[..i];
    }
  }

  /** Own steps until the call is inside when nothing is in its way. */
  function StepsIn(call: Start): nat {
    if IsRead(call) && !call.TryReadLp? then 2 else 3
  }

  /** pc is n steps from inside. */
  ghost predicate Entering(pc: Pc, read: bool, n: nat) {
    match n
    case 0 => if read then pc.Reading? else pc.Writing?
    case 1 => if read then pc.ReadAdd? else pc.WriteCas? || (pc.HpCas? && pc.v0 == 0)
    case 2 => if read then pc.LpLoad? else pc.WriteLoad? || pc.HpLoad?
    case _ => false
  }

  lemma StepsEnter(w: Word, pc: Pc, c: Choice, read: bool, n: nat)
    requires n > 0 && Entering(pc, read, n) && !c.spurious && (if read then w < WBIT else w == 0)
    ensures Entering(Execute(w, pc, c).1, read, n - 1)
  {
  }

  lemma {:induction false} Enters(s: State, schedule: seq<(Tid, Choice)>, t: Tid, call: Start)
    requires t in s.pcs && s.pcs[t].Idle? && OwnSteps(schedule, t) <= StepsIn(call)
    requires Calls(s, schedule, t, call, if IsRead(call) then NoWriter else Nobody)
    ensures var e, k := Run(s, schedule), OwnSteps(schedule, t);
      t in e.pcs && if k == 0 then e.pcs[t].Idle? else Entering(e.pcs[t], IsRead(call), StepsIn(call) - k)
  {
    if schedule != [] {
      var before, last := schedule[..|schedule| - 1], schedule[|schedule| - 1];
      CallsBefore(s, schedule, t, call, if IsRead(call) then NoWriter else Nobody);
      Enters(s, before, t, call);
      var k := OwnSteps(before, t);
      if last.0 == t && k > 0 {
        StepsEnter(Run(s, before).word, Run(s, before).pcs[t], last.1, IsRead(call), StepsIn(call) - k);
      }
    }
  }

  /** Whatever the others do: a read call that never meets the writer bit is inside as a reader after two steps of its own,
      three if it looks first; a write call that always finds the word 0 is inside as a writer after three. Not before. */
  lemma EntersFree(s: State, schedule: seq<(Tid, Choice)>, t: Tid, call: Start)
    requires t in s.pcs && s.pcs[t].Idle? && 0 < OwnSteps(schedule, t) <= StepsIn(call)
    requires Calls(s, schedule, t, call, if IsRead(call) then NoWriter else Nobody)
    ensures var e := Run(s, schedule);
      && t in e.pcs && (OwnSteps(schedule, t) < StepsIn(call) <==> InCall(e.pcs[t]))
      && (OwnSteps(schedule, t) == StepsIn(call) ==> if IsRead(call) then e.pcs[t].Reading? else e.pcs[t].Writing?)
  {
    Enters(s, schedule, t, call);
  }

  /** Own steps until a try gives up: it starts, then tries once or one more time than its count says. A reader adds
      itself first and takes itself back at the end; only the one that looks first does neither. */
  function StepsOut(call: Start): nat
    requires IsTry(call)
  {
    match call
    case TryRead => 3
    case TryReadLp => 2
    case TryReadNr(nr) => 1 + 1 + (nr + 1) + 1
    case TryWrite => 2
    case TryWriteNr(nr) => 1 + (nr + 1)
    case TryWriteHp => 2
    case TryWriteHpNr(nr) => 1 + (nr + 1)
  }

  /** A write call that does not wait for readers gives up before them too. */
  function InTheWay(call: Start): Sight {
    if IsRead(call) || IsHp(call) then WriterIn else SomebodyIn
  }

  function Tries(mode: Mode): nat {
    if mode.Times? then mode.nr + 1 else 1
  }

  /** pc is n steps from giving up. */
  ghost predicate Failing(pc: Pc, n: nat, sight: Sight) {
    match pc
    case Idle => n == 0
    case LpLoad => n == 1 && sight.WriterIn?
    case ReadAdd(mode) => !mode.Forever? && n == 2 + (if mode.Times? then mode.nr + 1 else 0) && sight.WriterIn?
    case ReadPoll(nr) => n == nr + 2 && sight.WriterIn?
    case ReadBack(mode) => !mode.Forever? && n == 1 && sight.WriterIn?
    case WriteLoad(mode) => !mode.Forever? && n == Tries(mode)
    case HpLoad(mode) => !mode.Forever? && n == Tries(mode) && sight.WriterIn?
    case _ => false
  }

  lemma StepsFail(w: Word, pc: Pc, c: Choice, n: nat, sight: Sight)
    requires n > 0 && Failing(pc, n, sight) && Sees(sight, w) && (sight.WriterIn? || sight.SomebodyIn?)
    ensures Failing(Execute(w, pc, c).1, n - 1, sight)
  {
  }

  lemma {:induction false} Fails(s: State, schedule: seq<(Tid, Choice)>, t: Tid, call: Start)
    requires t in s.pcs && s.pcs[t].Idle? && IsTry(call) && OwnSteps(schedule, t) <= StepsOut(call)
    requires Calls(s, schedule, t, call, InTheWay(call))
    ensures var e, k := Run(s, schedule), OwnSteps(schedule, t);
      t in e.pcs && if k == 0 then e.pcs[t].Idle? else Failing(e.pcs[t], StepsOut(call) - k, InTheWay(call))
  {
    if schedule != [] {
      var before, last := schedule[..|schedule| - 1], schedule[|schedule| - 1];
      CallsBefore(s, schedule, t, call, InTheWay(call));
      Fails(s, before, t, call);
      var k := OwnSteps(before, t);
      if last.0 == t && k > 0 {
        StepsFail(Run(s, before).word, Run(s, before).pcs[t], last.1, StepsOut(call) - k, InTheWay(call));
      }
    }
  }

  /** Whatever the others do: a try that meets the writer bit at every step of its own gives up, after exactly as many
      polls as its count says. So does one to write without waiting for readers that never finds the word 0. */
  lemma GivesUp(s: State, schedule: seq<(Tid, Choice)>, t: Tid, call: Start)
    requires t in s.pcs && s.pcs[t].Idle? && IsTry(call) && 0 < OwnSteps(schedule, t) <= StepsOut(call)
    requires Calls(s, schedule, t, call, InTheWay(call))
    ensures var e := Run(s, schedule); t in e.pcs && if OwnSteps(schedule, t) == StepsOut(call) then e.pcs[t].Idle? else InCall(e.pcs[t])
  {
    Fails(s, schedule, t, call);
  }

  /** While another thread stays inside as a writer, every step finds the writer bit. */
  lemma {:induction false} WriterStays(s: State, schedule: seq<(Tid, Choice)>, u: Tid)
    requires Inv(s) && u in s.pcs && s.pcs[u].Writing? && forall i | 0 <= i < |schedule| :: schedule[i].0 != u
    ensures Run(s, schedule).word >= WBIT && u in Run(s, schedule).pcs && Run(s, schedule).pcs[u].Writing?
  {
    if schedule != [] { WriterStays(s, schedule[..|schedule| - 1], u); }
    AlwaysExclusive(s, schedule);
    var e := Run(s, schedule);
    assert u in Writers(e);
    WordTells(e);
  }

  /** So every try of another thread fails against it. */
  lemma FailsAgainstWriter(s: State, schedule: seq<(Tid, Choice)>, t: Tid, u: Tid, call: Start)
    requires Inv(s) && t in s.pcs && s.pcs[t].Idle? && u in s.pcs && s.pcs[u].Writing? && IsTry(call)
    requires forall i | 0 <= i < |schedule| :: schedule[i].0 != u && (schedule[i].0 == t ==> schedule[i].1.start == call && !schedule[i].1.spurious)
    requires OwnSteps(schedule, t) == StepsOut(call)
    ensures var e := Run(s, schedule); t in e.pcs && e.pcs[t].Idle?
  {
    forall i | 0 <= i < |schedule| && schedule[i].0 == t ensures CallsAt(s, schedule, t, call, InTheWay(call), i) {
      WriterStays(s, schedule[..i], u);
    }
    GivesUp(s, schedule, t, call);
  }

  /** A high-priority write call sets the writer bit over active readers: when the word it loaded had no writer bit and
      is still the same at the exchange. It is inside at once if there were none, and otherwise waits. */
  lemma BitOverReaders(s: State, schedule: seq<(Tid, Choice)>, t: Tid, call: Start, v: Word)
    requires t in s.pcs && s.pcs[t].Idle? && IsHp(call) && v < WBIT
    requires schedule == [(t, Choice(call, false, false)), (t, Choice(call, false, false)), (t, Choice(call, false, false))]
    requires s.word == v
    ensures var e := Run(s, schedule); t in e.pcs && e.word == v + WBIT && OwnsBit(e.pcs[t]) && (e.pcs[t].Writing? <==> v == 0)
  {
    assert schedule[..2][..1] == schedule[..1] && schedule[..1][..0] == [];
    assert Run(s, schedule[..1]) == Next(s, t, schedule[0].1);
    assert Run(s, schedule[..2]) == Next(Run(s, schedule[..1]), t, schedule[1].1);
  }

  /** It goes on to be inside at the first step that finds the writer bit alone. */
  lemma DrainStep(s: State, t: Tid, c: Choice)
    requires t in s.pcs && s.pcs[t].HpDrain?
    ensures var e := Next(s, t, c); e.word == s.word && t in e.pcs && (if s.word == WBIT then e.pcs[t].Writing? else e.pcs[t] == s.pcs[t])
  {
  }

  /** What a blocking call waits for is not there any more. */
  ghost predicate WayIsFree(s: State, t: Tid, call: Start) {
    && t in s.pcs && InCall(s.pcs[t]) && !s.pcs[t].HpDrain?
    && if call.LockRead? then s.word < WBIT && (CountsAsReader(s.pcs[t]) ==> s.word > 0) else s.word == 0
  }

  ghost predicate IsInside(s: State, t: Tid, call: Start) {
    t in s.pcs && if IsRead(call) then s.pcs[t].Reading? else s.pcs[t].Writing?
  }

  /** A step of a blocking call towards the inside, at most n from it. */
  ghost predicate Approaches(pc: Pc, w: Word, call: Start, n: nat) {
    match pc
    case ReadBack(_) => n == 3 && 0 < w < WBIT
    case ReadSpin => n >= 2 && w < WBIT
    case ReadAdd(_) => n >= 1 && w < WBIT
    case WriteSpin => n == 3 && w == 0
    case WriteLoad(_) => n >= 2 && w == 0
    case WriteCas(_) => n >= 1 && w == 0
    case HpLoad(_) => n >= 2 && w == 0
    case HpCas(_, v0) => w == 0 && n >= if v0 == 0 then 1 else 3
    case _ => false
  }

  lemma StepApproaches(s: State, t: Tid, c: Choice, call: Start, n: nat)
    requires t in s.pcs && n > 0 && !c.spurious && !IsTry(call) && Serves(s.pcs[t], call) && Approaches(s.pcs[t], s.word, call, n)
    ensures var e := Next(s, t, c);
      || IsInside(e, t, call)
      || (n > 1 && t in e.pcs && Serves(e.pcs[t], call) && Approaches(e.pcs[t], e.word, call, n - 1))
  {
  }

  /** A blocking call that finds nothing in its way any more is inside after at most three steps, wherever it was. */
  lemma LockGetsIn(s: State, schedule: seq<(Tid, Choice)>, t: Tid, c0: Choice, c1: Choice, c2: Choice)
    requires AllIdle(s) && t in s.pcs && !c0.spurious && !c1.spurious && !c2.spurious
    requires PastOf(s, schedule, t).Called? && !IsTry(PastOf(s, schedule, t).call)
    requires WayIsFree(Run(s, schedule), t, PastOf(s, schedule, t).call)
    ensures var e, call := Run(s, schedule), PastOf(s, schedule, t).call;
      var e1 := Next(e, t, c0); var e2 := Next(e1, t, c1); var e3 := Next(e2, t, c2);
      IsInside(e1, t, call) || IsInside(e2, t, call) || IsInside(e3, t, call)
  {
    RunAsCalled(s, schedule, t);
    var e, call := Run(s, schedule), PastOf(s, schedule, t).call;
    StepApproaches(e, t, c0, call, 3);
    var e1 := Next(e, t, c0);
    if !IsInside(e1, t, call) {
      StepApproaches(e1, t, c1, call, 2);
      var e2 := Next(e1, t, c1);
      if !IsInside(e2, t, call) { StepApproaches(e2, t, c2, call, 1); }
    }
  }

  // ---- the instructions ----

  /** The lock word with the threads at it; each step runs one atomic instruction of one thread. */
  class Machine {
    var word: Word
    var pcs: map<Tid, Pc>

    function Now(): State
      reads this
    {
      State(word, pcs)
    }

    constructor (threads: set<Tid>)
      requires |threads| < WBIT
      ensures Now() == State(0, map t | t in threads :: Idle) && Inv(Now())
    {
      word := 0;
      pcs := map t | t in threads :: Idle;
      new;
      InitInv(threads);
    }

    method FetchAdd(d: int) returns (before: Word)
      modifies `word
      ensures before == old(word) && word == Add(before, d)
    {
      before := word;
      word := (word + d) % MODULUS;
    }

    /** A weak compare-exchange: it may fail although the word is the expected one. */
    method CompareExchange(expected: Word, desired: Word, spurious: bool) returns (ok: bool)
      modifies `word
      ensures ok <==> old(word) == expected && !spurious
      ensures word == if ok then desired else old(word)
    {
      ok := word == expected && !spurious;
      if ok {
        word := desired;
      }
    }

    method Step(t: Tid, c: Choice)
      requires Inv(Now())
      modifies this
      ensures Now() == Next(old(Now()), t, c) && Inv(Now())
    {
      StepKeepsInv(Now(), t, c);
      if t in pcs {
        var pc := Instruction(pcs[t], c);
        pcs := pcs[t := pc];
      }
    }

    method Instruction(at: Pc, c: Choice) returns (next: Pc)
      modifies `word
      ensures (word, next) == Execute(old(word), at, c)
    {
      next := at;
      match at {
        case Idle => next := Begin(c.start);
        case LpLoad => next := if word / WBIT == 0 then ReadAdd(Once) else Idle;
        case ReadAdd(mode) =>
          var v := FetchAdd(1);
          if v / WBIT == 0 {
            next := Reading;
          } else {
            next := if mode.Times? then ReadPoll(mode.nr) else ReadBack(mode);
          }
        case ReadPoll(nr) =>
          if word / WBIT == 0 {
            next := Reading;
          } else {
            next := if nr == 0 then ReadBack(Once) else ReadPoll(nr - 1);
          }
        case ReadBack(mode) =>
          var _ := FetchAdd(-1);
          next := if mode.Forever? then ReadSpin else Idle;
        case ReadSpin => if word / WBIT == 0 { next := ReadAdd(Forever); }
        case Reading =>
          var _ := FetchAdd(-1);
          next := Idle;
        case WriteLoad(mode) => next := if word == 0 then WriteCas(mode) else WriteAgain(mode);
        case WriteCas(mode) =>
          var ok := CompareExchange(0, WBIT, c.spurious);
          next := if ok then Writing else WriteAgain(mode);
        case WriteSpin => if word == 0 { next := WriteLoad(Forever); }
        case HpLoad(mode) => next := if word / WBIT == 0 then HpCas(mode, word) else HpAgain(mode);
        case HpCas(mode, v0) =>
          var ok := CompareExchange(v0, Add(v0, WBIT), c.spurious);
          if ok {
            next := if v0 == 0 then Writing else HpDrain;
          } else {
            next := HpAgain(mode);
          }
        case HpDrain => if word == WBIT { next := Writing; }
        case Writing =>
          if c.toRead {
            var _ := FetchAdd(1 - WBIT);
            next := Reading;
          } else {
            var _ := FetchAdd(-WBIT);
            next := Idle;
          }
      }
    }
  }
}
