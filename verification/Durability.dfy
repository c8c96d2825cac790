/**
 Runs over the bytes of the log file. A crash cuts the file at any byte behind its
 header; up to three bytes of a torn frame then read as a clean end, and the writer
 appends behind them. This module says exactly which runs can always be opened again
 with the tables that were live.
 */
module Durability {
  import opened Wrappers
  import opened Bytes
  import opened Values
  import opened Wal
  import opened Recovery
  import opened LostTransactions
  import opened ReplayLog

  // ------------------------------------------------------------------ crashes at any byte of the log file

  /**
   A log file cut at any byte behind its header replays its whole frames, or is refused if four bytes
   or more are left over.
   */
  lemma CutFileReplays(c: WalCodec, cat: Catalog, saved: Tables, file: seq<byte>, checks: bool, log: seq<Record>,
                       n: nat) returns (k: nat)
    requires WalCodecOk(c) && IsLog(c, file, checks, log) && HEADER_SIZE <= n <= |file|
    ensures k <= |log| && HEADER_SIZE + |Frames(c, checks, log[..k])| <= n
    ensures k < |log| ==> n < HEADER_SIZE + |Frames(c, checks, log[..k + 1])|
    ensures ReplayFile(c, cat, saved, file[..n])
         == if n < HEADER_SIZE + |Frames(c, checks, log[..k])| + 4 then Ok(Replay(cat, saved, log[..k]))
              else Err(StorageError)
  {
    var m := n - HEADER_SIZE;
    k := WholeFrames(c, checks, log, m);
    WholeFramesFit(c, checks, log, m);
    LogIsHeld(c, file, checks, log);
    var p, left := CutOfFile(c, checks, file, log, [], m);
    ReplayOfParse(c, cat, saved, file[..n], checks, p);
  }

  lemma CutOfFile(c: WalCodec, checks: bool, file: seq<byte>, log: seq<Record>, tail: seq<byte>, n: nat)
    returns (p: Parse, left: seq<byte>)
    requires WalCodecOk(c) && HoldsLog(c, checks, file, log, tail) && n <= |file| - HEADER_SIZE
    ensures p == Parse(log[..WholeFrames(c, checks, log, n)], TornBytes(c, checks, log, n) < 4)
    ensures ParsesAs(c, checks, file[..HEADER_SIZE + n], p)
    ensures p.ok ==> HoldsLog(c, checks, file[..HEADER_SIZE + n], p.records, left)
  {
    left := CutFileReads(c, checks, file, log, tail, n);
    p := Parse(log[..WholeFrames(c, checks, log, n)], TornBytes(c, checks, log, n) < 4);
  }

  lemma ReplayOfParse(c: WalCodec, cat: Catalog, saved: Tables, file: seq<byte>, checks: bool, p: Parse)
    requires ParsesAs(c, checks, file, p)
    ensures ReplayFile(c, cat, saved, file) == if p.ok then Ok(Replay(cat, saved, p.records)) else Err(StorageError)
  {}

  /**
   Whatever byte of the log file a crash cuts off from the creations since operation j, where
   the last checkpoint or restart may be, opening the files gives the state after a prefix
   of the run, or refuses a torn frame. The prefix has every creation whose frames are whole.
   */
  lemma CrashAtAnyByte(c: WalCodec, cat: Catalog, st: State, ops: seq<Op>, j: nat, file: seq<byte>, checks: bool,
                       n: nat)
    returns (m: nat)
    requires WalCodecOk(c) && Recoverable(cat, st) && SafeRun(cat, st, ops) && OnlyCreations(ops, j)
    requires IsLog(c, file, checks, Run(cat, st, ops).log)
    requires HEADER_SIZE + |Frames(c, checks, Run(cat, st, ops[..j]).log)| <= n <= |file|
    ensures j <= m <= |ops|
    ensures var replayed := ReplayFile(c, cat, Run(cat, st, ops).saved, file[..n]);
            replayed == Ok(Run(cat, st, ops[..m]).live) || replayed == Err(StorageError)
    ensures m < |ops| ==> n < HEADER_SIZE + |Frames(c, checks, Run(cat, st, ops[..m + 1]).log)|
    ensures n == |file| ==> ReplayFile(c, cat, Run(cat, st, ops).saved, file[..n]) == Ok(Run(cat, st, ops).live)
  {
    var end := Run(cat, st, ops);
    LogGrows(cat, st, ops, j);
    var k := CutFileReplays(c, cat, end.saved, file, checks, end.log, n);
    WholeFramesKept(c, checks, Run(cat, st, ops[..j]).log, end.log, k, n - HEADER_SIZE);
    m := PrefixReplays(cat, st, ops, j, k);
    if m < |ops| { NextIsTorn(c, checks, cat, st, ops, k, m); }
    assert end.log[..|end.log|] == end.log;
  }

  lemma NextIsTorn(c: WalCodec, checks: bool, cat: Catalog, st: State, ops: seq<Op>, k: nat, m: nat)
    requires WellFormed(cat, st) && m < |ops| && OnlyCreations(ops, m)
    requires k < |Run(cat, st, ops[..m + 1]).log|
    ensures k < |Run(cat, st, ops).log|
    ensures |Frames(c, checks, Run(cat, st, ops).log[..k + 1])| <= |Frames(c, checks, Run(cat, st, ops[..m + 1]).log)|
  {
    LogGrows(cat, st, ops, m + 1);
    LongerLog(c, checks, Run(cat, st, ops[..m + 1]).log, Run(cat, st, ops).log, k);
  }

  // ------------------------------------------------------------------ the state machine on the files

  /** The state of the database, and what the log file holds. */
  datatype Files = Files(st: State, file: seq<byte>)

  /**
   The frame of a begin record does not show the record again one to three bytes before its start.
   Transaction ids start at 1; a record of nothing but zero bytes would show again.
   */
  ghost predicate ClearCodec(c: WalCodec) {
    && WalCodecOk(c) && WholeEncodings(c)
    && forall tx, lsn, k | tx >= 1 && 1 <= k <= 3 :: !Shifted(c, BeginRecord(tx, lsn), k)
  }

  ghost predicate FilesOk(cat: Catalog, d: Files) {
    WellFormed(cat, d.st) && d.st.nextTx >= 1 && |d.file| >= HEADER_SIZE
  }

  /** How many bytes behind the header a crash keeps. */
  function KeptBytes(file: seq<byte>, keep: nat): nat
    requires |file| >= HEADER_SIZE
  {
    if keep <= |file| - HEADER_SIZE then keep else |file| - HEADER_SIZE
  }

  /** The records that a step appends to the log. */
  function NewRecords(st: State, st': State): seq<Record> {
    if |st.log| <= |st'.log| then st'.log[|st.log|..] else []
  }

  lemma ReopenedWellFormed(c: WalCodec, cat: Catalog, saved: Tables, file: seq<byte>)
    requires CatalogOk(cat) && TablesOk(cat, saved)
    ensures WellFormed(cat, Reopened(c, cat, saved, file))
  {
    FoldOk(cat, saved, ToApply(RecordsOf(c, file)));
  }

  lemma IdsStayPositive(cat: Catalog, st: State, op: Op)
    requires WellFormed(cat, st) && st.nextTx >= 1
    ensures WellFormed(cat, Step(cat, st, op)) && Step(cat, st, op).nextTx >= 1
  {
    StepWellFormed(cat, st, op);
    if IsCreation(op) { CreationLogs(cat, st, op); }
  }

  /** A creation appends the frames of what it logs. */
  ghost function Created(c: WalCodec, checks: bool, cat: Catalog, d: Files, op: Op): (d': Files)
    requires FilesOk(cat, d)
    ensures FilesOk(cat, d')
  {
    IdsStayPositive(cat, d.st, op);
    var st := Step(cat, d.st, op);
    Files(st, d.file + Frames(c, checks, NewRecords(d.st, st)))
  }

  /** A checkpoint leaves the header of the log. */
  ghost function Emptied(cat: Catalog, d: Files): (d': Files)
    requires FilesOk(cat, d)
    ensures FilesOk(cat, d')
  {
    IdsStayPositive(cat, d.st, Op.Checkpoint);
    Files(Step(cat, d.st, Op.Checkpoint), d.file[..HEADER_SIZE])
  }

  /** A crash keeps so many bytes behind the header, and the files are opened again; a bad frame makes that fail. */
  ghost function Crashed(c: WalCodec, cat: Catalog, d: Files, keep: nat): (r: Option<Files>)
    requires FilesOk(cat, d)
    ensures r.Some? ==> FilesOk(cat, r.value)
  {
    var file := d.file[..HEADER_SIZE + KeptBytes(d.file, keep)];
    ReopenedWellFormed(c, cat, d.st.saved, file);
    if ReplayFile(c, cat, d.st.saved, file).Ok? then Some(Files(Reopened(c, cat, d.st.saved, file), file)) else None
  }

  ghost function FileStep(c: WalCodec, checks: bool, cat: Catalog, d: Files, op: Op): (r: Option<Files>)
    requires FilesOk(cat, d)
    ensures r.Some? ==> FilesOk(cat, r.value)
  {
    match op
    case Checkpoint => Some(Emptied(cat, d))
    case CrashReopen(keep) => Crashed(c, cat, d, keep)
    case _ => Some(Created(c, checks, cat, d, op))
  }

  /** Opening the two files reads the whole log and gives exactly the live tables. */
  ghost predicate Durable(c: WalCodec, checks: bool, cat: Catalog, d: Files) {
    && FilesOk(cat, d) && OpenHeader(d.file) == Ok(checks)
    && RecordsOf(c, d.file) == d.st.log && ReplayFile(c, cat, d.st.saved, d.file) == Ok(d.st.live)
  }

  lemma DurableMeans(c: WalCodec, checks: bool, cat: Catalog, d: Files)
    requires FilesOk(cat, d)
    ensures Durable(c, checks, cat, d) <==> Recoverable(cat, d.st) && ReadsAs(c, checks, d.file, d.st.log)
  {}

  /** The state is recoverable, and the file holds its log and perhaps the first bytes of a torn frame. */
  ghost predicate Held(c: WalCodec, checks: bool, cat: Catalog, d: Files, tail: seq<byte>) {
    Recoverable(cat, d.st) && d.st.nextTx >= 1 && HoldsLog(c, checks, d.file, d.st.log, tail)
  }

  lemma HeldIsDurable(c: WalCodec, checks: bool, cat: Catalog, d: Files, tail: seq<byte>)
    requires WalCodecOk(c) && Held(c, checks, cat, d, tail)
    ensures Durable(c, checks, cat, d)
  {
    HeldReads(c, checks, d.file, d.st.log, tail);
    DurableMeans(c, checks, cat, d);
  }

  // ------------------------------------------------------------------ one step

  /**
   A creation that logs something is harmless, writes short records only and finds no bytes of a torn
   frame in front of it.
   */
  ghost predicate SoundCreation(c: WalCodec, checks: bool, cat: Catalog, d: Files, op: Op)
    requires FilesOk(cat, d)
  {
    && Harmless(cat, d.st, op) && AllShort(c, NewRecords(d.st, Step(cat, d.st, op)))
    && d.file[HEADER_SIZE..] == Frames(c, checks, d.st.log)
  }

  /**
   Checkpoints, creations that log nothing, sound creations, and crashes that leave fewer than four
   bytes of a frame.
   */
  ghost predicate SoundStep(c: WalCodec, checks: bool, cat: Catalog, d: Files, op: Op)
    requires FilesOk(cat, d)
  {
    match op
    case Checkpoint => true
    case CrashReopen(keep) => TornBytes(c, checks, d.st.log, KeptBytes(d.file, keep)) < 4
    case _ => Step(cat, d.st, op) == d.st || SoundCreation(c, checks, cat, d, op)
  }

  lemma CreationAppends(cat: Catalog, st: State, op: Op) returns (more: seq<Record>)
    requires WellFormed(cat, st) && IsCreation(op) && Step(cat, st, op) != st
    ensures more != [] && more[0] == BeginRecord(st.nextTx, st.nextLsn)
    ensures Step(cat, st, op).log == st.log + more && NewRecords(st, Step(cat, st, op)) == more
  {
    CreationLogs(cat, st, op);
    var kind, payload :| LogsOne(st, Step(cat, st, op), kind, payload);
    more := Transaction(st.nextTx, st.nextLsn, kind, payload);
  }

  /** What a creation that logs something does to the files. */
  ghost predicate Appends(c: WalCodec, checks: bool, cat: Catalog, d: Files, d': Files, more: seq<Record>) {
    && d.st.nextTx >= 1 && FilesOk(cat, d') && d'.st.saved == d.st.saved && d'.st.log == d.st.log + more
    && d'.file == d.file + Frames(c, checks, more)
    && more != [] && more[0] == BeginRecord(d.st.nextTx, d.st.nextLsn)
  }

  lemma CreatedAppends(c: WalCodec, checks: bool, cat: Catalog, d: Files, op: Op) returns (more: seq<Record>)
    requires FilesOk(cat, d) && IsCreation(op) && Step(cat, d.st, op) != d.st
    ensures Appends(c, checks, cat, d, Created(c, checks, cat, d, op), more)
    ensures NewRecords(d.st, Step(cat, d.st, op)) == more
  {
    more := CreationAppends(cat, d.st, op);
  }

  lemma AppendedIsDurable(c: WalCodec, checks: bool, cat: Catalog, d: Files, tail: seq<byte>, d': Files,
                          more: seq<Record>)
    requires ClearCodec(c) && HoldsLog(c, checks, d.file, d.st.log, tail) && Appends(c, checks, cat, d, d', more)
    ensures Durable(c, checks, cat, d') <==> Recoverable(cat, d'.st) && tail == [] && AllShort(c, more)
    ensures Durable(c, checks, cat, d') ==> Held(c, checks, cat, d', [])
  {
    AppendedFileReads(c, checks, d.file, d.st.log, tail, more);
    DurableMeans(c, checks, cat, d');
  }

  lemma CreationIsDurable(c: WalCodec, checks: bool, cat: Catalog, d: Files, tail: seq<byte>, op: Op)
    requires ClearCodec(c) && Held(c, checks, cat, d, tail) && IsCreation(op) && Step(cat, d.st, op) != d.st
    ensures var d' := Created(c, checks, cat, d, op);
            && (Durable(c, checks, cat, d') <==> SoundCreation(c, checks, cat, d, op))
            && (SoundCreation(c, checks, cat, d, op) ==> Held(c, checks, cat, d', []))
  {
    var more := CreatedAppends(c, checks, cat, d, op);
    AppendedIsDurable(c, checks, cat, d, tail, Created(c, checks, cat, d, op), more);
    CreationRecovers(cat, d.st, op);
    NoTail(Frames(c, checks, d.st.log), tail);
  }

  lemma NoTail(a: seq<byte>, tail: seq<byte>)
    ensures a + tail == a <==> tail == []
  {
    assert |a + tail| == |a| + |tail|;
  }

  lemma NothingLogged(c: WalCodec, checks: bool, cat: Catalog, d: Files, op: Op)
    requires FilesOk(cat, d) && Step(cat, d.st, op) == d.st
    ensures Created(c, checks, cat, d, op) == d
  {
    assert Frames(c, checks, []) == [] && d.file + [] == d.file;
  }

  lemma CrashIsDurable(c: WalCodec, checks: bool, cat: Catalog, d: Files, tail: seq<byte>, keep: nat)
    returns (left: seq<byte>)
    requires WalCodecOk(c) && Held(c, checks, cat, d, tail)
    ensures var r := Crashed(c, cat, d, keep);
            && (r.Some? <==> TornBytes(c, checks, d.st.log, KeptBytes(d.file, keep)) < 4)
            && (r.Some? ==> Held(c, checks, cat, r.value, left))
  {
    var n := KeptBytes(d.file, keep);
    var file, p := d.file[..HEADER_SIZE + n], Parse([], true);
    p, left := CutOfFile(c, checks, d.file, d.st.log, tail, n);
    OpenedAgain(c, checks, cat, d.st.saved, file, p, left);
    CrashedIs(c, cat, d, keep, n, file);
  }

  lemma CrashedIs(c: WalCodec, cat: Catalog, d: Files, keep: nat, n: nat, file: seq<byte>)
    requires FilesOk(cat, d) && n == KeptBytes(d.file, keep) && file == d.file[..HEADER_SIZE + n]
    ensures Crashed(c, cat, d, keep)
         == if ReplayFile(c, cat, d.st.saved, file).Ok? then Some(Files(Reopened(c, cat, d.st.saved, file), file))
              else None
  {}

  lemma OpenedAgain(c: WalCodec, checks: bool, cat: Catalog, saved: Tables, file: seq<byte>, p: Parse, tail: seq<byte>)
    requires WalCodecOk(c) && CatalogOk(cat) && TablesOk(cat, saved) && ParsesAs(c, checks, file, p)
    requires p.ok ==> HoldsLog(c, checks, file, p.records, tail)
    ensures ReplayFile(c, cat, saved, file).Ok? <==> p.ok
    ensures p.ok ==> Held(c, checks, cat, Files(Reopened(c, cat, saved, file), file), tail)
  {
    ReopenedWellFormed(c, cat, saved, file);
  }

  lemma EmptiedIsDurable(c: WalCodec, checks: bool, cat: Catalog, d: Files, tail: seq<byte>)
    requires WalCodecOk(c) && Held(c, checks, cat, d, tail)
    ensures Held(c, checks, cat, Emptied(cat, d), [])
  {
    HeaderOfCut(d.file, HEADER_SIZE);
    NothingReplayed(cat, d.st.live);
  }

  lemma NothingReplayed(cat: Catalog, saved: Tables)
    ensures Replay(cat, saved, []) == saved
  {}

  /** A step keeps the database durable exactly if it is sound. */
  lemma StepIsDurable(c: WalCodec, checks: bool, cat: Catalog, d: Files, tail: seq<byte>, op: Op)
    returns (left: seq<byte>)
    requires ClearCodec(c) && Held(c, checks, cat, d, tail)
    ensures var r := FileStep(c, checks, cat, d, op);
            && (r.Some? && Durable(c, checks, cat, r.value) <==> SoundStep(c, checks, cat, d, op))
            && (SoundStep(c, checks, cat, d, op) ==> Held(c, checks, cat, r.value, left))
  {
    left := [];
    match op {
      case Checkpoint =>
        EmptiedIsDurable(c, checks, cat, d, tail);
        HeldIsDurable(c, checks, cat, Emptied(cat, d), []);
      case CrashReopen(keep) =>
        left := CrashIsDurable(c, checks, cat, d, tail, keep);
        var r := Crashed(c, cat, d, keep);
        if r.Some? { HeldIsDurable(c, checks, cat, r.value, left); }
      case _ =>
        if Step(cat, d.st, op) == d.st {
          left := tail;
          NothingLogged(c, checks, cat, d, op);
          HeldIsDurable(c, checks, cat, d, tail);
        } else {
          CreationIsDurable(c, checks, cat, d, tail, op);
        }
    }
  }

  // ------------------------------------------------------------------ runs

  /** The files after a run, if every opening in it succeeds. */
  ghost function FileRun(c: WalCodec, checks: bool, cat: Catalog, d: Files, ops: seq<Op>): (r: Option<Files>)
    requires FilesOk(cat, d)
    ensures r.Some? ==> FilesOk(cat, r.value)
  {
    if ops == [] then Some(d)
    else
      match FileRun(c, checks, cat, d, ops[..|ops| - 1])
      case None => None
      case Some(before) => FileStep(c, checks, cat, before, ops[|ops| - 1])
  }

  /** Every state of a run can be opened from its files. */
  ghost predicate AlwaysDurable(c: WalCodec, checks: bool, cat: Catalog, d: Files, ops: seq<Op>)
    requires FilesOk(cat, d)
  {
    var r := FileRun(c, checks, cat, d, ops);
    && r.Some? && Durable(c, checks, cat, r.value)
    && (ops == [] || AlwaysDurable(c, checks, cat, d, ops[..|ops| - 1]))
  }

  ghost predicate SoundFileRun(c: WalCodec, checks: bool, cat: Catalog, d: Files, ops: seq<Op>)
    requires FilesOk(cat, d)
  {
    ops == [] || (
      var before := FileRun(c, checks, cat, d, ops[..|ops| - 1]);
      && SoundFileRun(c, checks, cat, d, ops[..|ops| - 1])
      && before.Some? && SoundStep(c, checks, cat, before.value, ops[|ops| - 1]))
  }

  /**
   In runs of creations, checkpoints, crashes at any byte of the log and restarts, the files
   always open with exactly the live tables if and only if every step is sound.
   */
  lemma {:induction false} RunIsDurableExactly(c: WalCodec, checks: bool, cat: Catalog, d: Files, tail: seq<byte>,
                                               ops: seq<Op>)
    returns (left: seq<byte>)
    requires ClearCodec(c) && Held(c, checks, cat, d, tail)
    ensures AlwaysDurable(c, checks, cat, d, ops) <==> SoundFileRun(c, checks, cat, d, ops)
    ensures SoundFileRun(c, checks, cat, d, ops) ==>
              var r := FileRun(c, checks, cat, d, ops);
              r.Some? && Held(c, checks, cat, r.value, left)
  {
    if ops == [] {
      left := tail;
      HeldIsDurable(c, checks, cat, d, tail);
    } else {
      left := RunIsDurableExactly(c, checks, cat, d, tail, ops[..|ops| - 1]);
      left := OneMoreStep(c, checks, cat, d, left, ops);
    }
  }

  lemma OneMoreStep(c: WalCodec, checks: bool, cat: Catalog, d: Files, tail: seq<byte>, ops: seq<Op>)
    returns (left: seq<byte>)
    requires ClearCodec(c) && FilesOk(cat, d) && ops != []
    requires var front := ops[..|ops| - 1];
             && (AlwaysDurable(c, checks, cat, d, front) <==> SoundFileRun(c, checks, cat, d, front))
             && (SoundFileRun(c, checks, cat, d, front) ==>
                   var r := FileRun(c, checks, cat, d, front);
                   r.Some? && Held(c, checks, cat, r.value, tail))
    ensures AlwaysDurable(c, checks, cat, d, ops) <==> SoundFileRun(c, checks, cat, d, ops)
    ensures SoundFileRun(c, checks, cat, d, ops) ==>
              var r := FileRun(c, checks, cat, d, ops);
              r.Some? && Held(c, checks, cat, r.value, left)
  {
    left := tail;
    if SoundFileRun(c, checks, cat, d, ops[..|ops| - 1]) {
      left := StepIsDurable(c, checks, cat, FileRun(c, checks, cat, d, ops[..|ops| - 1]).value, tail, ops[|ops| - 1]);
    }
  }

  // ------------------------------------------------------------------ a creation behind a torn length

  /** One to three bytes more than the log. */
  ghost predicate TornWithin(c: WalCodec, checks: bool, d: Files, keep: nat) {
    |Frames(c, checks, d.st.log)| < keep <= |Frames(c, checks, d.st.log)| + 3
  }

  /**
   A node is created, a crash leaves one to three bytes of its first frame, and the database
   opens cleanly. Then a node is created and logged whole: the next opening fails or reads
   another log.
   */
  lemma CreationBehindTail(c: WalCodec, checks: bool, cat: Catalog, d: Files, first: Op, next: Op, keep: nat)
    returns (d1: Files, d2: Files, d3: Files)
    requires ClearCodec(c) && Held(c, checks, cat, d, []) && TornWithin(c, checks, d, keep)
    requires first.CreateNode? && first.name in cat.tables && next.CreateNode? && next.name in cat.tables
    ensures FileStep(c, checks, cat, d, first) == Some(d1)
    ensures FileStep(c, checks, cat, d1, CrashReopen(keep)) == Some(d2)
    ensures Durable(c, checks, cat, d2) && d2.st.live == d.st.live
    ensures FileStep(c, checks, cat, d2, next) == Some(d3) && !Durable(c, checks, cat, d3)
  {
    var tail;
    d1 := Created(c, checks, cat, d, first);
    d2, tail := TornCreation(c, checks, cat, d, d1, first, keep);
    HeldIsDurable(c, checks, cat, d2, tail);
    d3 := Created(c, checks, cat, d2, next);
    TailSpoils(c, checks, cat, d2, tail, next, d3);
    CrashStep(c, checks, cat, d1, keep);
  }

  lemma CrashStep(c: WalCodec, checks: bool, cat: Catalog, d: Files, keep: nat)
    requires FilesOk(cat, d)
    ensures FileStep(c, checks, cat, d, CrashReopen(keep)) == Crashed(c, cat, d, keep)
  {}

  /** Whatever is created behind torn bytes is not durable. */
  lemma TailSpoils(c: WalCodec, checks: bool, cat: Catalog, d: Files, tail: seq<byte>, op: Op, d': Files)
    requires ClearCodec(c) && Held(c, checks, cat, d, tail) && tail != []
    requires op.CreateNode? && op.name in cat.tables && d' == Created(c, checks, cat, d, op)
    ensures !Durable(c, checks, cat, d')
  {
    NodeCreationLogs(cat, d.st, op);
    var more := CreatedAppends(c, checks, cat, d, op);
    AppendedIsDurable(c, checks, cat, d, tail, d', more);
  }

  lemma TornCreation(c: WalCodec, checks: bool, cat: Catalog, d: Files, d1: Files, op: Op, keep: nat)
    returns (d2: Files, tail: seq<byte>)
    requires WalCodecOk(c) && Held(c, checks, cat, d, []) && TornWithin(c, checks, d, keep)
    requires op.CreateNode? && op.name in cat.tables && d1 == Created(c, checks, cat, d, op)
    ensures Crashed(c, cat, d1, keep) == Some(d2) && d2.st.live == d.st.live
    ensures tail != [] && Held(c, checks, cat, d2, tail)
  {
    NodeCreationLogs(cat, d.st, op);
    var more := CreatedAppends(c, checks, cat, d, op);
    d2, tail := TornBegin(c, checks, cat, d, d1, more, keep);
  }

  lemma NodeCreationLogs(cat: Catalog, st: State, op: Op)
    requires WellFormed(cat, st) && op.CreateNode? && op.name in cat.tables
    ensures Step(cat, st, op) != st
  {
    assert Step(cat, st, op).nextTx == st.nextTx + 1;
  }

  lemma TornBegin(c: WalCodec, checks: bool, cat: Catalog, d: Files, d1: Files, more: seq<Record>, keep: nat)
    returns (d2: Files, tail: seq<byte>)
    requires WalCodecOk(c) && Held(c, checks, cat, d, []) && TornWithin(c, checks, d, keep)
          && Appends(c, checks, cat, d, d1, more)
    ensures Crashed(c, cat, d1, keep) == Some(d2) && d2.st.live == d.st.live
    ensures tail != [] && Held(c, checks, cat, d2, tail)
  {
    tail := TornLength(c, checks, d.file, d.st.log, more, keep - |Frames(c, checks, d.st.log)|);
    ReopenedLog(c, checks, cat, d.st, d1.file[..HEADER_SIZE + keep], tail);
    d2 := CrashedAt(c, cat, d1, keep);
  }

  lemma CrashedAt(c: WalCodec, cat: Catalog, d: Files, keep: nat) returns (d': Files)
    requires FilesOk(cat, d) && keep <= |d.file| - HEADER_SIZE
    requires ReplayFile(c, cat, d.st.saved, d.file[..HEADER_SIZE + keep]).Ok?
    ensures Crashed(c, cat, d, keep) == Some(d')
    ensures d'.file == d.file[..HEADER_SIZE + keep] && d'.st == Reopened(c, cat, d.st.saved, d'.file)
  {
    d' := Crashed(c, cat, d, keep).value;
  }

  lemma ReopenedLog(c: WalCodec, checks: bool, cat: Catalog, st: State, file: seq<byte>, tail: seq<byte>)
    requires WalCodecOk(c) && Recoverable(cat, st) && HoldsLog(c, checks, file, st.log, tail)
    ensures ReplayFile(c, cat, st.saved, file) == Ok(st.live)
    ensures Reopened(c, cat, st.saved, file) == State(st.saved, st.log, st.live, 1, 1)
  {
    HeldReads(c, checks, file, st.log, tail);
  }
}
