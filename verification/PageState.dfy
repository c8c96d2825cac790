/**
 The packed page-state word of the buffer pool and the compare-and-swap
 protocol that many threads run on it.

 A word is [dirty:1][state:7][version:56]. Each operation first loads the word
 and later tries one compare-exchange; the two are separate steps here, so any
 other thread may run in between. The protocol is stated on the three fields;
 the first half of the file proves that the bit operations compute exactly that.
 */
module PageState {
  import opened Wrappers

  datatype PageStateValue = Unlocked | Locked | Marked | Evicted

  function Code(s: PageStateValue): bv64 {
    match s
    case Unlocked => 0
    case Locked => 1
    case Marked => 2
    case Evicted => 3
  }

  function TryFrom(bits: bv64): Option<PageStateValue> {
    if bits == 0 then Some(Unlocked)
    else if bits == 1 then Some(Locked)
    else if bits == 2 then Some(Marked)
    else if bits == 3 then Some(Evicted)
    else None
  }

  /** The state bits of a packed word, read as `PageStateValue::try_from` does. */
  function TryState(w: bv64): Option<PageStateValue> { TryFrom((w & 0x7F00_0000_0000_0000) >> 56) }

  datatype Op =
    | SetDirty(on: bool)
    | TryLockFromEvicted
    | TryLock
    | UnlockToMarked
    | MarkToUnlocked
    | TryEvict

  // ------------------------------------------------------------------ packed words

  /** What an operation requires of the loaded word before it tries its compare-exchange. */
  predicate BitGuard(op: Op, w: bv64) {
    match op
    case SetDirty(_) => true
    case TryLockFromEvicted => TryState(w) == Some(Evicted)
    case TryLock => TryState(w) == Some(Unlocked) || TryState(w) == Some(Marked)
    case UnlockToMarked => true
    case MarkToUnlocked => TryState(w) == Some(Marked)
    case TryEvict => TryState(w) == Some(Marked) || TryState(w) == Some(Unlocked)
  }

  /** The word an operation tries to install over `w`, bit for bit. */
  function BitNext(op: Op, w: bv64): bv64 {
    match op
    case SetDirty(on) => if on then w | 0x8000_0000_0000_0000 else w & !0x8000_0000_0000_0000
    case TryLockFromEvicted => (Code(Locked) << 56) | ((w & 0x00FF_FFFF_FFFF_FFFF) + 1)
    case TryLock => (w & 0x8000_0000_0000_0000) | (Code(Locked) << 56) | ((w & 0x00FF_FFFF_FFFF_FFFF) + 1)
    case UnlockToMarked => (w & 0x8000_0000_0000_0000) | (Code(Marked) << 56) | (w & 0x00FF_FFFF_FFFF_FFFF)
    case MarkToUnlocked => (w & 0x8000_0000_0000_0000) | (Code(Unlocked) << 56) | (w & 0x00FF_FFFF_FFFF_FFFF)
    case TryEvict => (Code(Evicted) << 56) | ((w & 0x00FF_FFFF_FFFF_FFFF) + 1)
  }

  // ------------------------------------------------------------------ the three fields

  /** A word as its fields; the version counts modulo 2^56. */
  datatype Word = Word(dirty: bool, state: PageStateValue, version: bv56)

  function Pack(x: Word): bv64 {
    PackBits(x.dirty, Code(x.state), x.version)
  }

  function PackBits(d: bool, c: bv64, v: bv56): bv64 {
    (if d then 0x8000_0000_0000_0000 else 0) | (c << 56) | (v as bv64)
  }

  predicate Guard(op: Op, x: Word) {
    match op
    case SetDirty(_) => true
    case TryLockFromEvicted => x.state == Evicted
    case TryLock => x.state == Unlocked || x.state == Marked
    case UnlockToMarked => true
    case MarkToUnlocked => x.state == Marked
    case TryEvict => x.state == Marked || x.state == Unlocked
  }

  function Next(op: Op, x: Word): Word {
    match op
    case SetDirty(on) => x.(dirty := on)
    case TryLockFromEvicted => Word(false, Locked, x.version + 1)
    case TryLock => Word(x.dirty, Locked, x.version + 1)
    case UnlockToMarked => x.(state := Marked)
    case MarkToUnlocked => x.(state := Unlocked)
    case TryEvict => Word(false, Evicted, x.version + 1)
  }

  /** Two packed words are equal, as compare-exchange sees them, only when all fields are. */
  lemma PackInjective(x: Word, y: Word)
    requires Pack(x) == Pack(y)
    ensures x == y
  {
    PackFields(x);
    PackFields(y);
  }

  /** The getters read back exactly what was packed: `try_from` never fails on such a word. */
  lemma PackFields(x: Word)
    ensures TryState(Pack(x)) == Some(x.state)
    ensures (Pack(x) & 0x8000_0000_0000_0000 != 0) == x.dirty
    ensures Pack(x) & 0x00FF_FFFF_FFFF_FFFF == x.version as bv64
  {
    Parts(x.dirty, Code(x.state), x.version);
  }

  // Bit facts stand on their own, about bits only.

  function DirtyBit(d: bool): bv64 { if d then 0x8000_0000_0000_0000 else 0 }

  lemma Parts(d: bool, c: bv64, v: bv56)
    requires c <= 3
    ensures PackBits(d, c, v) & 0x8000_0000_0000_0000 == DirtyBit(d)
    ensures (PackBits(d, c, v) & 0x7F00_0000_0000_0000) >> 56 == c
    ensures PackBits(d, c, v) & 0x00FF_FFFF_FFFF_FFFF == v as bv64
  {}

  lemma GuardCommutes(op: Op, x: Word)
    ensures BitGuard(op, Pack(x)) == Guard(op, x)
  {
    PackFields(x);
  }

  /** The operation installs, bit for bit, what it does to the three fields. */
  ghost predicate Commutes(op: Op, x: Word) { BitNext(op, Pack(x)) == Pack(Next(op, x)) }

  lemma SetDirtyCommutes(op: Op, x: Word)
    requires op == SetDirty(true)
    ensures Commutes(op, x)
  {}

  lemma ClearDirtyCommutes(op: Op, x: Word)
    requires op == SetDirty(false)
    ensures Commutes(op, x)
  {}

  lemma UnlockCommutes(op: Op, x: Word)
    requires op.UnlockToMarked?
    ensures Commutes(op, x)
  {}

  lemma RescueCommutes(op: Op, x: Word)
    requires op.MarkToUnlocked?
    ensures Commutes(op, x)
  {}

  // The carry of a full version never reaches the state: LOCKED and EVICTED both
  // have bit 56 set already, so the version restarts at 0 and the state is right.

  lemma LockCommutes(op: Op, x: Word)
    requires op.TryLock?
    ensures Commutes(op, x)
  {}

  lemma LockFromEvictedCommutes(op: Op, x: Word)
    requires op.TryLockFromEvicted?
    ensures Commutes(op, x)
  {}

  lemma EvictCommutes(op: Op, x: Word)
    requires op.TryEvict?
    ensures Commutes(op, x)
  {}

  lemma EachCommutes(op: Op, x: Word)
    ensures Commutes(op, x)
  {
    match op
    case SetDirty(on) => if on { SetDirtyCommutes(op, x); } else { ClearDirtyCommutes(op, x); }
    case TryLockFromEvicted => LockFromEvictedCommutes(op, x);
    case TryLock => LockCommutes(op, x);
    case UnlockToMarked => UnlockCommutes(op, x);
    case MarkToUnlocked => RescueCommutes(op, x);
    case TryEvict => EvictCommutes(op, x);
  }

  /** On a packed word every operation tests and installs what the field view says. */
  lemma PackCommutes(op: Op, x: Word)
    ensures BitGuard(op, Pack(x)) == Guard(op, x)
    ensures BitNext(op, Pack(x)) == Pack(Next(op, x))
  {
    GuardCommutes(op, x);
    EachCommutes(op, x);
  }

  /** Only these three operations loop when their compare-exchange fails. */
  predicate Retries(op: Op) { op.SetDirty? || op.TryLock? || op.UnlockToMarked? }

  /** A successful lock or eviction, the events an optimistic reader must not miss. */
  predicate Bumps(op: Op) { op.TryLockFromEvicted? || op.TryLock? || op.TryEvict? }

  predicate Locks(op: Op) { op.TryLockFromEvicted? || op.TryLock? }

  // ------------------------------------------------------------------ the protocol

  /** Where a thread is: outside, about to load, or holding a loaded word for its compare-exchange. */
  datatype Pc<W> = Idle | AtLoad(op: Op) | AtCas(op: Op, seen: W)

  /** `holders` records which threads returned from a lock and have not unlocked since. */
  datatype Sys<W> = Sys(word: W, pcs: map<nat, Pc<W>>, holders: set<nat>)

  /** What the operations require of a loaded word and what they try to install over it. */
  datatype Machine<!W> = Machine(guard: (Op, W) -> bool, next: (Op, W) -> W)

  function Bits(): Machine<bv64> { Machine(BitGuard, BitNext) }

  function Fields(): Machine<Word> { Machine(Guard, Next) }

  function PcOf<W>(s: Sys<W>, t: nat): Pc<W> { if t in s.pcs then s.pcs[t] else Idle }

  datatype Action = Call(t: nat, op: Op) | Load(t: nat) | Cas(t: nat)

  /** A thread may be interrupted anywhere; only a lock holder calls `unlock_to_marked`. */
  predicate Enabled<W>(s: Sys<W>, a: Action) {
    match a
    case Call(t, op) => PcOf(s, t).Idle? && (op.UnlockToMarked? ==> t in s.holders)
    case Load(t) => PcOf(s, t).AtLoad?
    case Cas(t) => PcOf(s, t).AtCas?
  }

  /** Whether this step is a compare-exchange that succeeds. */
  predicate Succeeds<W(==)>(s: Sys<W>, a: Action) {
    Enabled(s, a) && a.Cas? && PcOf(s, a.t).seen == s.word
  }

  /** Whether this step locks or evicts the page. */
  predicate BumpsAt<W(==)>(s: Sys<W>, a: Action) { Succeeds(s, a) && Bumps(PcOf(s, a.t).op) }

  function StepOn<W(==)>(m: Machine<W>, s: Sys<W>, a: Action): Sys<W> {
    if !Enabled(s, a) then s
    else match a
      case Call(t, op) => s.(pcs := s.pcs[t := AtLoad(op)])
      case Load(t) =>
        var op := PcOf(s, t).op;
        if m.guard(op, s.word) then s.(pcs := s.pcs[t := AtCas(op, s.word)])
        else s.(pcs := s.pcs[t := Idle])
      case Cas(t) =>
        var op := PcOf(s, t).op;
        if PcOf(s, t).seen == s.word then
          Sys(m.next(op, s.word), s.pcs[t := Idle],
              if Locks(op) then s.holders + {t}
              else if op.UnlockToMarked? then s.holders - {t}
              else s.holders)
        else s.(pcs := s.pcs[t := if Retries(op) then AtLoad(op) else Idle])
  }

  function RunOn<W(==)>(m: Machine<W>, s: Sys<W>, run: seq<Action>): Sys<W>
    decreases |run|
  {
    if run == [] then s else RunOn(m, StepOn(m, s, run[0]), run[1..])
  }

  /** How many locks and evictions succeed during a run. */
  function BumpedOn<W(==)>(m: Machine<W>, s: Sys<W>, run: seq<Action>): nat
    decreases |run|
  {
    if run == [] then 0
    else (if BumpsAt(s, run[0]) then 1 else 0) + BumpedOn(m, StepOn(m, s, run[0]), run[1..])
  }

  // ------------------------------------------------------------------ the word refines the fields

  function MapPc<V, W>(f: V -> W, pc: Pc<V>): Pc<W> {
    match pc
    case Idle => Idle
    case AtLoad(op) => AtLoad(op)
    case AtCas(op, seen) => AtCas(op, f(seen))
  }

  function MapSys<V, W>(f: V -> W, s: Sys<V>): Sys<W> {
    Sys(f(s.word), map t | t in s.pcs :: MapPc(f, s.pcs[t]), s.holders)
  }

  /** `f` turns the words of one machine into those of another without losing anything. */
  ghost predicate Embeds<V(!new), W>(f: V -> W, m: Machine<V>, m': Machine<W>) {
    && (forall x, y :: f(x) == f(y) ==> x == y)
    && (forall op, x :: m'.guard(op, f(x)) == m.guard(op, x))
    && (forall op, x :: m'.next(op, f(x)) == f(m.next(op, x)))
  }

  lemma StepCommutes<V(!new), W>(f: V -> W, m: Machine<V>, m': Machine<W>, s: Sys<V>, a: Action)
    requires Embeds(f, m, m')
    ensures StepOn(m', MapSys(f, s), a) == MapSys(f, StepOn(m, s, a))
    ensures BumpsAt(MapSys(f, s), a) <==> BumpsAt(s, a)
  {
    assert PcOf(MapSys(f, s), a.t) == MapPc(f, PcOf(s, a.t));
    if Enabled(s, a) { PcMoves(f, s, a.t, StepOn(m, s, a).pcs[a.t]); }
  }

  lemma PcMoves<V, W>(f: V -> W, s: Sys<V>, t: nat, pc: Pc<V>)
    ensures MapSys(f, s.(pcs := s.pcs[t := pc])).pcs == MapSys(f, s).pcs[t := MapPc(f, pc)]
  {}

  lemma {:induction false} RunCommutes<V(!new), W>(f: V -> W, m: Machine<V>, m': Machine<W>, s: Sys<V>,
                                         run: seq<Action>)
    requires Embeds(f, m, m')
    ensures RunOn(m', MapSys(f, s), run) == MapSys(f, RunOn(m, s, run))
    ensures BumpedOn(m', MapSys(f, s), run) == BumpedOn(m, s, run)
    decreases |run|
  {
    if run != [] {
      StepCommutes(f, m, m', s, run[0]);
      RunCommutes(f, m, m', StepOn(m, s, run[0]), run[1..]);
    }
  }

  /** The code's bit operations on the packed word do what the operations on the three fields do. */
  lemma PackEmbeds()
    ensures Embeds(Pack, Fields(), Bits())
  {
    forall x, y | Pack(x) == Pack(y) ensures x == y {
      PackInjective(x, y);
    }
    forall op, x
      ensures Bits().guard(op, Pack(x)) == Fields().guard(op, x)
           && Bits().next(op, Pack(x)) == Pack(Fields().next(op, x))
    {
      PackCommutes(op, x);
    }
  }

  // ------------------------------------------------------------------ mutual exclusion

  function Step(s: Sys<Word>, a: Action): Sys<Word> { StepOn(Fields(), s, a) }

  function Run(s: Sys<Word>, run: seq<Action>): Sys<Word> { RunOn(Fields(), s, run) }

  /** `PageState::new`: EVICTED, clean, version 0, and no thread inside. */
  function Init(): Sys<Word> { Sys(Word(false, Evicted, 0), map[], {}) }

  /** LOCKED exactly when one thread holds the lock, otherwise nobody does. */
  ghost predicate MutualExclusion(s: Sys<Word>) {
    if s.word.state == Locked then exists t :: s.holders == {t} else s.holders == {}
  }

  ghost predicate Inv(s: Sys<Word>) {
    && MutualExclusion(s)
    && (forall t :: PcOf(s, t).AtCas? ==> Guard(PcOf(s, t).op, PcOf(s, t).seen))
    && (forall t :: !PcOf(s, t).Idle? && PcOf(s, t).op.UnlockToMarked? ==> t in s.holders)
  }

  lemma StepKeepsInv(s: Sys<Word>, a: Action)
    requires Inv(s)
    ensures Inv(Step(s, a))
  {
    var s' := Step(s, a);
    if Succeeds(s, a) {
      var op := PcOf(s, a.t).op;
      assert Guard(op, s.word);
      if Locks(op) { assert s'.holders == {a.t}; }
      if op.UnlockToMarked? {
        assert a.t in s.holders;
        assert s'.holders == {};
      }
    }
    forall t ensures PcOf(s', t) == if t == a.t then PcOf(s', t) else PcOf(s, t) {}
  }

  /** In every interleaving the word says LOCKED if and only if exactly one thread holds the lock. */
  lemma {:induction false} LockIsExclusive(s: Sys<Word>, run: seq<Action>)
    requires Inv(s)
    ensures Inv(Run(s, run))
    decreases |run|
  {
    if run != [] {
      StepKeepsInv(s, run[0]);
      LockIsExclusive(Step(s, run[0]), run[1..]);
    }
  }

  lemma RunFromNew(run: seq<Action>)
    ensures var s := Run(Init(), run);
            && (s.word.state == Locked <==> |s.holders| == 1)
            && (forall t, u :: t in s.holders && u in s.holders ==> t == u)
  {
    LockIsExclusive(Init(), run);
    var s := Run(Init(), run);
    if s.word.state == Locked {
      var t :| s.holders == {t};
    }
  }

  // ------------------------------------------------------------------ optimistic reads

  function Bumped(s: Sys<Word>, run: seq<Action>): nat { BumpedOn(Fields(), s, run) }

  /** The version `n` increments later, counting modulo 2^56. */
  function Advance(v: bv56, n: nat): bv56
    decreases n
  {
    if n == 0 then v else Advance(v + 1, n - 1)
  }

  lemma StepVersion(s: Sys<Word>, a: Action)
    ensures !BumpsAt(s, a) ==> Step(s, a).word.version == s.word.version
    ensures BumpsAt(s, a) ==> Step(s, a).word == Next(PcOf(s, a.t).op, s.word)
  {}

  lemma NextVersion(op: Op, x: Word)
    requires Bumps(op)
    ensures Next(op, x).version == x.version + 1
  {
    match op
    case TryLockFromEvicted =>
    case TryLock =>
    case TryEvict =>
  }

  /** In every run the version counts the locks and evictions that succeeded. */
  lemma {:induction false} VersionCountsBumps(s: Sys<Word>, run: seq<Action>)
    ensures Run(s, run).word.version == Advance(s.word.version, Bumped(s, run))
    decreases |run|
  {
    if run != [] {
      StepVersion(s, run[0]);
      if BumpsAt(s, run[0]) { NextVersion(PcOf(s, run[0].t).op, s.word); }
      VersionCountsBumps(Step(s, run[0]), run[1..]);
    }
  }

  /** `n` increments from `v` never go through the last version, 2^56 - 1. */
  predicate NoWrap(v: bv56, n: nat)
    decreases n
  {
    n > 0 ==> v + 1 != 0 && NoWrap(v + 1, n - 1)
  }

  /** A version as a number. */
  ghost function Ver(v: bv56): nat
    decreases v
  {
    if v == 0 then 0 else 1 + Ver(v - 1)
  }

  lemma VerAfter(v: bv56)
    requires v + 1 != 0
    ensures Ver(v + 1) == Ver(v) + 1
  {
    assert (v + 1) - 1 == v;
  }

  /** As long as the counter does not wrap, versions only grow, by one per lock or eviction. */
  lemma {:induction false} VersionGrows(v: bv56, n: nat)
    requires NoWrap(v, n)
    ensures Ver(Advance(v, n)) == Ver(v) + n
    decreases n
  {
    if n > 0 {
      VerAfter(v);
      VersionGrows(v + 1, n - 1);
    }
  }

  /**
   Optimistic reads are sound: a reader that sees an unlocked word and later the
   same version knows that nobody held the lock at any moment in between.
   */
  lemma OptimisticRead(s: Sys<Word>, run: seq<Action>, k: nat)
    requires Inv(s) && s.word.state != Locked && k <= |run|
    requires NoWrap(s.word.version, Bumped(s, run))
    requires Run(s, run).word.version == s.word.version
    ensures Bumped(s, run) == 0 && Run(s, run[..k]).holders == {}
  {
    VersionCountsBumps(s, run);
    VersionGrows(s.word.version, Bumped(s, run));
    QuietRunHasNoHolder(s, run, k);
  }

  lemma {:induction false} QuietRunHasNoHolder(s: Sys<Word>, run: seq<Action>, k: nat)
    requires Inv(s) && s.holders == {} && Bumped(s, run) == 0 && k <= |run|
    ensures Run(s, run[..k]).holders == {}
    decreases |run|
  {
    if k > 0 {
      StepKeepsInv(s, run[0]);
      QuietRunHasNoHolder(Step(s, run[0]), run[1..], k - 1);
      assert run[..k][1..] == run[1..][..k - 1];
    }
  }

  /**
   The wrap is real: a lock on version 2^56 - 1 succeeds and installs version 0,
   which a reader of an earlier version 0 cannot tell apart.
   */
  lemma WrapRestartsVersions(d: bool)
    ensures var w := Pack(Word(d, Unlocked, 0xFF_FFFF_FFFF_FFFF));
            && BitGuard(TryLock, w)
            && TryState(BitNext(TryLock, w)) == Some(Locked)
            && BitNext(TryLock, w) & 0x00FF_FFFF_FFFF_FFFF == 0
  {
    var x := Word(d, Unlocked, 0xFF_FFFF_FFFF_FFFF);
    PackCommutes(TryLock, x);
    PackFields(Next(TryLock, x));
  }

  /**
   `unlock_to_marked` is documented to panic unless the page is LOCKED. The code
   has no such test: it marks the page from every word, so a caller that does not
   hold the lock releases somebody else's.
   */
  lemma UnlockNeverRefuses(x: Word)
    ensures BitGuard(UnlockToMarked, Pack(x)) && TryState(BitNext(UnlockToMarked, Pack(x))) == Some(Marked)
  {
    PackCommutes(UnlockToMarked, x);
    PackFields(Next(UnlockToMarked, x));
  }

  /** What such a call does when nobody's compare-exchange interferes. */
  function UnlockedBy(s: Sys<Word>, t: nat): Sys<Word> {
    s.(word := Next(UnlockToMarked, s.word), holders := s.holders - {t})
  }

  /** An unlock by a thread that does not hold the lock breaks mutual exclusion exactly when the page is LOCKED. */
  lemma ForeignUnlockBreaks(s: Sys<Word>, t: nat)
    requires MutualExclusion(s) && t !in s.holders
    ensures MutualExclusion(UnlockedBy(s, t)) <==> s.word.state != Locked
  {
    assert s.holders - {t} == s.holders;
  }

  // ------------------------------------------------------------------ the same on the 64-bit word

  /** EVICTED, which is 3 in bits 56 to 62, clean, and version 0. */
  function NewWord(): (s: Sys<bv64>)
    ensures s.word == 0x0300_0000_0000_0000
  {
    Sys(Code(Evicted) << 56, map[], {})
  }

  function RunWord(run: seq<Action>): Sys<bv64> { RunOn(Bits(), NewWord(), run) }

  function VersionBits(w: bv64): bv64 { w & 0x00FF_FFFF_FFFF_FFFF }

  lemma WordOfRun(run: seq<Action>)
    ensures RunWord(run) == MapSys(Pack, Run(Init(), run)) && Inv(Run(Init(), run))
  {
    PackEmbeds();
    assert NewWord() == MapSys(Pack, Init());
    RunCommutes(Pack, Fields(), Bits(), Init(), run);
    LockIsExclusive(Init(), run);
  }

  /**
   In every interleaving of loads and compare-exchanges on the word: LOCKED if and only if exactly
   one thread holds the lock.
   */
  lemma WordIsExclusive(run: seq<Action>)
    ensures var s := RunWord(run);
            && (TryState(s.word) == Some(Locked) <==> |s.holders| == 1)
            && (forall t, u :: t in s.holders && u in s.holders ==> t == u)
  {
    WordOfRun(run);
    RunFromNew(run);
    PackFields(Run(Init(), run).word);
  }

  /**
   A reader that loads an unlocked word after any run, and later a word with the same
   version bits, knows that no lock or eviction succeeded in between and nobody held the lock.
   */
  lemma WordOptimisticRead(before: seq<Action>, run: seq<Action>, k: nat, v: bv56)
    requires k <= |run| && TryState(RunWord(before).word) != Some(Locked)
    requires VersionBits(RunWord(before).word) == v as bv64 && NoWrap(v, BumpedOn(Bits(), RunWord(before), run))
    requires VersionBits(RunOn(Bits(), RunWord(before), run).word) == v as bv64
    ensures BumpedOn(Bits(), RunWord(before), run) == 0 && RunOn(Bits(), RunWord(before), run[..k]).holders == {}
  {
    var s := Run(Init(), before);
    WordOfRun(before);
    PackEmbeds();
    RunCommutes(Pack, Fields(), Bits(), s, run);
    RunCommutes(Pack, Fields(), Bits(), s, run[..k]);
    VersionOf(s.word, v);
    VersionOf(Run(s, run).word, v);
    PackFields(s.word);
    OptimisticRead(s, run, k);
  }

  lemma VersionOf(x: Word, v: bv56)
    requires VersionBits(Pack(x)) == v as bv64
    ensures x.version == v
  {
    PackFields(x);
  }

  // ------------------------------------------------------------------ what the operations do to the bits

  /** Bits 56 to 62 of the word. */
  function StateBits(w: bv64): bv64 { (w >> 56) & 0x7F }

  /** Bit 63 is the dirty flag; UNLOCKED is 0, LOCKED 1, MARKED 2 and EVICTED 3. */
  lemma BitsOf(x: Word)
    ensures Pack(x) >> 63 == (if x.dirty then 1 else 0)
    ensures StateBits(Pack(x)) == Code(x.state)
  {
    HighBits(x.dirty, Code(x.state), x.version);
  }

  lemma HighBits(d: bool, c: bv64, v: bv56)
    requires c <= 3
    ensures PackBits(d, c, v) >> 63 == (if d then 1 else 0) && StateBits(PackBits(d, c, v)) == c
  {}

  /** The states, as the bits of the word, in which a call goes on to its compare-exchange. */
  predicate MayTry(op: Op, state: bv64) {
    match op
    case SetDirty(_) => true
    case TryLockFromEvicted => state == 3
    case TryLock => state == 0 || state == 2
    case UnlockToMarked => true
    case MarkToUnlocked => state == 2
    case TryEvict => state == 0 || state == 2
  }

  /**
   A load in a run from a new page: the call goes on exactly from these states and
   otherwise returns, and the word stays.
   */
  lemma LoadDecides(run: seq<Action>, t: nat)
    requires PcOf(RunWord(run), t).AtLoad?
    ensures var s, s' := RunWord(run), StepOn(Bits(), RunWord(run), Load(t));
            && s'.word == s.word
            && PcOf(s', t) == if MayTry(PcOf(s, t).op, StateBits(s.word)) then AtCas(PcOf(s, t).op, s.word) else Idle
  {
    var x := Run(Init(), run).word;
    WordOfRun(run);
    BitsOf(x);
    PackFields(x);
  }

  /** A compare-exchange that fails leaves the word; setting the flag, locking and unlocking start over. */
  lemma FailureKeepsWord(s: Sys<bv64>, t: nat)
    requires PcOf(s, t).AtCas? && PcOf(s, t).seen != s.word
    ensures var op, s' := PcOf(s, t).op, StepOn(Bits(), s, Cas(t));
            && s'.word == s.word && s'.holders == s.holders
            && PcOf(s', t) == if op.SetDirty? || op == TryLock || op == UnlockToMarked then AtLoad(op) else Idle
  {}

  /** The states a successful operation leaves and enters, and bit 63 before and after it. */
  predicate Moves(op: Op, from: bv64, to: bv64, before: bv64, after: bv64) {
    match op
    case SetDirty(on) => to == from && after == (if on then 1 else 0)
    case TryLockFromEvicted => from == 3 && to == 1 && after == 0
    case TryLock => (from == 0 || from == 2) && to == 1 && after == before
    case UnlockToMarked => from == 1 && to == 2 && after == before
    case MarkToUnlocked => from == 2 && to == 0 && after == before
    case TryEvict => (from == 0 || from == 2) && to == 3 && after == 0
  }

  function Flag(d: bool): bv64 { if d then 1 else 0 }

  lemma FieldsMove(s: Sys<Word>, t: nat)
    requires Inv(s) && Succeeds(s, Cas(t))
    ensures var x, y := s.word, Step(s, Cas(t)).word;
            Moves(PcOf(s, t).op, Code(x.state), Code(y.state), Flag(x.dirty), Flag(y.dirty))
  {
    var op := PcOf(s, t).op;
    assert Guard(op, s.word);
    if op.UnlockToMarked? { assert t in s.holders; }
  }

  /** A compare-exchange that succeeds in a run from a new page moves the word in this way. */
  lemma SuccessMoves(run: seq<Action>, t: nat)
    requires Succeeds(RunWord(run), Cas(t))
    ensures var s, s' := RunWord(run), StepOn(Bits(), RunWord(run), Cas(t));
            Moves(PcOf(s, t).op, StateBits(s.word), StateBits(s'.word), s.word >> 63, s'.word >> 63)
  {
    var x := Run(Init(), run);
    WordOfRun(run);
    PackEmbeds();
    StepCommutes(Pack, Fields(), Bits(), x, Cas(t));
    SameSuccess(x, t);
    FieldsMove(x, t);
    BitsOf(x.word);
    BitsOf(Step(x, Cas(t)).word);
  }

  lemma SameSuccess(x: Sys<Word>, t: nat)
    requires Succeeds(MapSys(Pack, x), Cas(t))
    ensures Succeeds(x, Cas(t)) && PcOf(MapSys(Pack, x), t).op == PcOf(x, t).op
  {
    assert PcOf(MapSys(Pack, x), t) == MapPc(Pack, PcOf(x, t));
    PackInjective(PcOf(x, t).seen, x.word);
  }

  /** Locking, unlocking and rescuing leave bit 63 as it is, on every word. */
  lemma DirtyBitStays(op: Op, w: bv64)
    requires op.TryLock? || op.UnlockToMarked? || op.MarkToUnlocked?
    ensures BitNext(op, w) >> 63 == w >> 63
  {
    match op
    case TryLock => LockKeepsHighBit(w);
    case UnlockToMarked =>
    case MarkToUnlocked =>
  }

  lemma LockKeepsHighBit(w: bv64)
    ensures ((w & 0x8000_0000_0000_0000) | (1 << 56) | ((w & 0x00FF_FFFF_FFFF_FFFF) + 1)) >> 63 == w >> 63
  {}

  /** A step that clears the dirty flag: the call that does so, an eviction, or a lock on an evicted page. */
  ghost predicate Cleans(s: Sys<bv64>, a: Action) {
    Succeeds(s, a) && var op := PcOf(s, a.t).op; op == SetDirty(false) || op == TryEvict || op == TryLockFromEvicted
  }

  ghost predicate Dirties(s: Sys<bv64>, a: Action) { Succeeds(s, a) && PcOf(s, a.t).op == SetDirty(true) }

  lemma DirtyStep(s: Sys<bv64>, a: Action)
    ensures s.word >> 63 == 1 && !Cleans(s, a) ==> StepOn(Bits(), s, a).word >> 63 == 1
    ensures s.word >> 63 == 0 && !Dirties(s, a) ==> StepOn(Bits(), s, a).word >> 63 == 0
  {
    if Succeeds(s, a) {
      var op := PcOf(s, a.t).op;
      match op
      case SetDirty(_) => SetBit(s.word);
      case TryLockFromEvicted => NoHighBit(1, s.word);
      case TryEvict => NoHighBit(3, s.word);
      case _ => DirtyBitStays(op, s.word);
    }
  }

  lemma SetBit(w: bv64)
    ensures (w | 0x8000_0000_0000_0000) >> 63 == 1 && (w & !0x8000_0000_0000_0000) >> 63 == 0
  {}

  lemma NoHighBit(c: bv64, w: bv64)
    requires c <= 3
    ensures ((c << 56) | ((w & 0x00FF_FFFF_FFFF_FFFF) + 1)) >> 63 == 0
  {}

  /**
   The dirty flag survives every run in which no step clears it, and a clean page stays
   clean in every run in which no step sets it.
   */
  lemma {:induction false} DirtySurvives(s: Sys<bv64>, run: seq<Action>)
    ensures s.word >> 63 == 1 && (forall k :: 0 <= k < |run| ==> !Cleans(RunOn(Bits(), s, run[..k]), run[k])) ==>
              RunOn(Bits(), s, run).word >> 63 == 1
    ensures s.word >> 63 == 0 && (forall k :: 0 <= k < |run| ==> !Dirties(RunOn(Bits(), s, run[..k]), run[k])) ==>
              RunOn(Bits(), s, run).word >> 63 == 0
    decreases |run|
  {
    if run != [] {
      var next := StepOn(Bits(), s, run[0]);
      DirtyStep(s, run[0]);
      DirtySurvives(next, run[1..]);
      assert RunOn(Bits(), s, run[..0]) == s;
      forall k | 0 <= k < |run| - 1 ensures RunOn(Bits(), next, run[1..][..k]) == RunOn(Bits(), s, run[..k + 1]) {
        assert run[..k + 1][1..] == run[1..][..k];
      }
    }
  }
}
