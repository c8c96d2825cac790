/**
 Parallel CSV reading: the file is cut into blocks of a fixed size, every block
 looks for its own first row, and the results are put together in block order.
 Records are the newline-terminated lines of the file; the row parser is a
 function of a line's bytes without its newline.
 */
module ParallelCsv {
  import opened Wrappers
  import opened Bytes

  const NEWLINE: byte := 10

  datatype Config = Config(blockSize: nat, quote: byte, hasHeader: bool, ignoreErrors: bool)

  /** What the row parser makes of a line. */
  datatype Parsed<R, E> = Row(row: R) | Bad(error: E)

  // ------------------------------------------------------------------ lines

  /** The position behind the next newline at or after `s`, or the end of the data. */
  function NextLine(data: seq<byte>, s: nat): (e: nat)
    requires s <= |data|
    ensures s <= e <= |data| && (s < |data| ==> s < e)
    decreases |data| - s
  {
    if s == |data| then s else if data[s] == NEWLINE then s + 1 else NextLine(data, s + 1)
  }

  /** A line holds no newline but its last byte, and only the last line may lack one. */
  lemma {:induction false} LineEnds(data: seq<byte>, s: nat)
    requires s < |data|
    ensures NextLine(data, s) < |data| ==> data[NextLine(data, s) - 1] == NEWLINE
    ensures forall i :: s <= i < NextLine(data, s) - 1 ==> data[i] != NEWLINE
    decreases |data| - s
  {
    if data[s] != NEWLINE && s + 1 < |data| { LineEnds(data, s + 1); }
  }

  /** The next line after a boundary is the first line that starts behind it. */
  lemma NextLineIsFirst(data: seq<byte>, s: nat, x: nat)
    requires s <= x < |data| && NextLine(data, s) > x
    ensures NextLine(data, x) == NextLine(data, s)
  {
    LineEnds(data, s);
    LineEnds(data, x);
    var a, b := NextLine(data, s), NextLine(data, x);
    assert a < |data| ==> data[a - 1] == NEWLINE;
    assert b < |data| ==> data[b - 1] == NEWLINE;
  }

  method SeekToRowStart(data: seq<byte>, offset: nat) returns (r: nat)
    requires offset <= |data|
    ensures r == if offset == 0 then 0 else NextLine(data, offset)
  {
    if offset == 0 {
      return 0;
    }
    for i := offset to |data|
      invariant NextLine(data, offset) == NextLine(data, i)
    {
      if data[i] == NEWLINE {
        return i + 1;
      }
    }
    r := |data|;
  }

  /** The lines that start at `s` or later, up to and including `limit`. */
  function Starts(data: seq<byte>, s: nat, limit: nat): seq<nat>
    decreases |data| - s
  {
    if s >= |data| || s > limit then [] else [s] + Starts(data, NextLine(data, s), limit)
  }

  /** Where the content of a line ends: before its newline, if it has one. */
  function ContentEnd(data: seq<byte>, s: nat): (e: nat)
    requires s < |data|
    ensures s <= e <= NextLine(data, s)
  {
    var e := NextLine(data, s);
    if data[e - 1] == NEWLINE then e - 1 else e
  }

  /** The content of a line as far as it lies before `cut`. */
  function LineAt(data: seq<byte>, s: nat, cut: nat): seq<byte>
    requires s < |data|
  {
    var e := ContentEnd(data, s);
    data[s..if e <= cut then e else if cut < s then s else cut]
  }

  function LinesAt(data: seq<byte>, starts: seq<nat>, cut: nat): (lines: seq<seq<byte>>)
    requires forall i :: 0 <= i < |starts| ==> starts[i] < |data|
    ensures |lines| == |starts|
  {
    seq(|starts|, i requires 0 <= i < |starts| => LineAt(data, starts[i], cut))
  }

  lemma {:induction false} StartsInside(data: seq<byte>, s: nat, limit: nat)
    ensures forall i ::
              0 <= i < |Starts(data, s, limit)| ==>
                s <= Starts(data, s, limit)[i] < |data| && Starts(data, s, limit)[i] <= limit
    decreases |data| - s
  {
    if s < |data| && s <= limit {
      StartsInside(data, NextLine(data, s), limit);
    }
  }

  /** One sequential pass over the whole file. */
  function AllLines(data: seq<byte>): seq<seq<byte>> {
    StartsInside(data, 0, |data|);
    LinesAt(data, Starts(data, 0, |data|), |data|)
  }

  lemma StartsBehind(data: seq<byte>, s: nat, x: nat, limit: nat)
    requires s <= x < |data| && x <= limit && NextLine(data, s) > x
    ensures Starts(data, s, x) == [s] && Starts(data, s, limit) == [s] + Starts(data, NextLine(data, x), limit)
  {
    NextLineIsFirst(data, s, x);
    assert Starts(data, NextLine(data, s), x) == [];
  }

  /** Cutting the file at a boundary: the lines up to it, then those from the next line start on. */
  lemma {:induction false} StartsSplit(data: seq<byte>, s: nat, x: nat, limit: nat)
    requires s <= x < |data| && x <= limit
    ensures Starts(data, s, limit) == Starts(data, s, x) + Starts(data, NextLine(data, x), limit)
    decreases |data| - s
  {
    var e, rest := NextLine(data, s), NextLine(data, x);
    if e <= x {
      StartsSplit(data, e, x, limit);
      Assoc([s], Starts(data, e, x), Starts(data, rest, limit));
    } else {
      StartsBehind(data, s, x, limit);
    }
  }

  // ------------------------------------------------------------------ blocks

  /** `BlockAssignment::new` */
  datatype Block = Block(idx: nat, start: nat, end: nat)

  function BlockOf(idx: nat, blockSize: nat, fileSize: nat): Block {
    var start := idx * blockSize;
    Block(idx, start, if start + blockSize <= fileSize then start + blockSize else fileSize)
  }

  function NumBlocks(blockSize: nat, fileSize: nat): nat
    requires blockSize > 0
  {
    (fileSize + blockSize - 1) / blockSize
  }

  /** Where a block starts reading. */
  function FirstRow(data: seq<byte>, b: Block): (r: nat)
    requires b.start <= |data|
    ensures r <= |data|
  {
    if b.idx == 0 then 0 else NextLine(data, b.start)
  }

  /** The lines a block should own: those that start behind its first byte and not behind its end. */
  function OwnedStarts(data: seq<byte>, b: Block): seq<nat>
    requires b.start <= |data|
  {
    Starts(data, FirstRow(data, b), b.end)
  }

  /** A block whose first line starts exactly at its end returns nothing, so that line is lost. */
  predicate LosesLine(data: seq<byte>, b: Block)
    requires b.start <= |data|
  {
    b.idx > 0 && FirstRow(data, b) == b.end < |data|
  }

  /** How far a block may read: one block size behind its end. */
  function CutOf(data: seq<byte>, b: Block, blockSize: nat): nat {
    if b.end + blockSize <= |data| then b.end + blockSize else |data|
  }

  function DropFirst<T>(s: seq<T>, n: nat): seq<T> { if n <= |s| then s[n..] else [] }

  /** The header is skipped in the first block only. */
  function SkipOf(b: Block, header: bool): nat { if b.idx == 0 && header then 1 else 0 }

  /** The lines the code takes from a block, cut off where the block's slice ends. */
  function TakenLines(data: seq<byte>, b: Block, c: Config): seq<seq<byte>>
    requires b.start <= |data|
  {
    if LosesLine(data, b) then []
    else
      StartsInside(data, FirstRow(data, b), b.end);
      DropFirst(LinesAt(data, OwnedStarts(data, b), CutOf(data, b, c.blockSize)), SkipOf(b, c.hasHeader))
  }

  /** The lines the block should contribute. */
  function WholeLines(data: seq<byte>, b: Block, c: Config): seq<seq<byte>>
    requires b.start <= |data|
  {
    StartsInside(data, FirstRow(data, b), b.end);
    DropFirst(LinesAt(data, OwnedStarts(data, b), |data|), SkipOf(b, c.hasHeader))
  }

  /** The block loses no line and the content of every line it takes ends inside its slice. */
  ghost predicate BlockFits(data: seq<byte>, b: Block, c: Config)
    requires b.start <= |data|
  {
    && !LosesLine(data, b)
    && forall i :: SkipOf(b, c.hasHeader) <= i < |OwnedStarts(data, b)| ==>
         OwnedStarts(data, b)[i] < |data| && ContentEnd(data, OwnedStarts(data, b)[i]) <= CutOf(data, b, c.blockSize)
  }

  /** The same, and the newline of every owned line, the header's included, lies inside the slice. */
  ghost predicate BlockHolds(data: seq<byte>, b: Block, c: Config)
    requires b.start <= |data|
  {
    && !LosesLine(data, b)
    && forall i :: 0 <= i < |OwnedStarts(data, b)| ==>
         OwnedStarts(data, b)[i] < |data| && NextLine(data, OwnedStarts(data, b)[i]) <= CutOf(data, b, c.blockSize)
  }

  /** A line that is cut is shorter, so it differs. */
  lemma CutLine(data: seq<byte>, s: nat, cut: nat)
    requires s < |data| && s <= cut
    ensures LineAt(data, s, cut) == LineAt(data, s, |data|) <==> ContentEnd(data, s) <= cut
  {
    assert |LineAt(data, s, |data|)| == ContentEnd(data, s) - s;
  }

  /** One block is read exactly when it fits; otherwise a line is missing or cut. */
  lemma BlockIsExact(data: seq<byte>, b: Block, c: Config)
    requires b.start <= b.end <= |data|
    ensures |TakenLines(data, b, c)| <= |WholeLines(data, b, c)|
    ensures TakenLines(data, b, c) == WholeLines(data, b, c) <==> BlockFits(data, b, c)
  {
    StartsInside(data, FirstRow(data, b), b.end);
    var starts, skip, cut := OwnedStarts(data, b), SkipOf(b, c.hasHeader), CutOf(data, b, c.blockSize);
    if LosesLine(data, b) {
      assert |starts| >= 1;
    } else {
      SameLines(data, starts, skip, cut);
    }
  }

  lemma SameLines(data: seq<byte>, starts: seq<nat>, skip: nat, cut: nat)
    requires forall i :: 0 <= i < |starts| ==> starts[i] < |data| && starts[i] <= cut
    ensures DropFirst(LinesAt(data, starts, cut), skip) == DropFirst(LinesAt(data, starts, |data|), skip)
       <==> forall i :: skip <= i < |starts| ==> ContentEnd(data, starts[i]) <= cut
  {
    var taken, whole := DropFirst(LinesAt(data, starts, cut), skip), DropFirst(LinesAt(data, starts, |data|), skip);
    forall i | skip <= i < |starts|
      ensures taken[i - skip] == whole[i - skip] <==> ContentEnd(data, starts[i]) <= cut
    {
      CutLine(data, starts[i], cut);
    }
  }

  lemma BlockBounds(idx: nat, blockSize: nat, fileSize: nat)
    requires blockSize > 0 && idx < NumBlocks(blockSize, fileSize)
    ensures var b := BlockOf(idx, blockSize, fileSize);
            b.start < fileSize && b.start < b.end <= fileSize
              && (idx + 1 < NumBlocks(blockSize, fileSize) ==> b.end == (idx + 1) * blockSize < fileSize)
    ensures idx + 1 == NumBlocks(blockSize, fileSize) ==> BlockOf(idx, blockSize, fileSize).end == fileSize
  {
    var n := NumBlocks(blockSize, fileSize);
    var q := fileSize + blockSize - 1;
    assert n * blockSize <= q < n * blockSize + blockSize by { DivBounds(q, blockSize); }
    MulMono(idx + 1, n, blockSize);
    if idx + 1 < n { MulMono(idx + 2, n, blockSize); }
  }

  lemma DivBounds(q: nat, d: nat)
    requires d > 0
    ensures q / d * d <= q < q / d * d + d
  {}

  lemma MulMono(a: nat, b: nat, d: nat)
    requires a <= b
    ensures a * d <= b * d && (a > 0 ==> a * d == (a - 1) * d + d)
  {}

  /** The lines taken from the first n blocks. */
  function TakenFrom(data: seq<byte>, c: Config, n: nat): seq<seq<byte>>
    requires c.blockSize > 0 && n <= NumBlocks(c.blockSize, |data|)
  {
    if n == 0 then []
    else
      BlockBounds(n - 1, c.blockSize, |data|);
      TakenFrom(data, c, n - 1) + TakenLines(data, BlockOf(n - 1, c.blockSize, |data|), c)
  }

  function WholeFrom(data: seq<byte>, c: Config, n: nat): seq<seq<byte>>
    requires c.blockSize > 0 && n <= NumBlocks(c.blockSize, |data|)
  {
    if n == 0 then []
    else
      BlockBounds(n - 1, c.blockSize, |data|);
      WholeFrom(data, c, n - 1) + WholeLines(data, BlockOf(n - 1, c.blockSize, |data|), c)
  }

  /** Each of the first n blocks fits. */
  ghost predicate BlocksFit(data: seq<byte>, c: Config, n: nat)
    requires c.blockSize > 0 && n <= NumBlocks(c.blockSize, |data|)
  {
    n > 0 ==>
      && BlocksFit(data, c, n - 1)
      && BlockOf(n - 1, c.blockSize, |data|).start <= |data|
      && BlockFits(data, BlockOf(n - 1, c.blockSize, |data|), c)
  }

  /** Each of the first n blocks holds its lines with their newlines. */
  ghost predicate BlocksHold(data: seq<byte>, c: Config, n: nat)
    requires c.blockSize > 0 && n <= NumBlocks(c.blockSize, |data|)
  {
    n > 0 ==>
      && BlocksHold(data, c, n - 1)
      && BlockOf(n - 1, c.blockSize, |data|).start <= |data|
      && BlockHolds(data, BlockOf(n - 1, c.blockSize, |data|), c)
  }

  lemma {:induction false} HoldingFits(data: seq<byte>, c: Config, n: nat)
    requires c.blockSize > 0 && n <= NumBlocks(c.blockSize, |data|) && BlocksHold(data, c, n)
    ensures BlocksFit(data, c, n)
  {
    if n > 0 { HoldingFits(data, c, n - 1); }
  }

  lemma SplitEquality<T>(a: seq<T>, b: seq<T>, a': seq<T>, b': seq<T>)
    requires |a| <= |a'| && |b| <= |b'|
    ensures a + b == a' + b' <==> a == a' && b == b'
  {
    if a + b == a' + b' {
      assert |a + b| == |a| + |b| && |a' + b'| == |a'| + |b'|;
      assert (a + b)[..|a|] == a && (a' + b')[..|a'|] == a';
      assert (a + b)[|a|..] == b && (a' + b')[|a'|..] == b';
    }
  }

  lemma {:induction false} TakenIsWhole(data: seq<byte>, c: Config, n: nat)
    requires c.blockSize > 0 && n <= NumBlocks(c.blockSize, |data|)
    ensures |TakenFrom(data, c, n)| <= |WholeFrom(data, c, n)|
    ensures TakenFrom(data, c, n) == WholeFrom(data, c, n) <==> BlocksFit(data, c, n)
  {
    if n > 0 {
      BlockBounds(n - 1, c.blockSize, |data|);
      var b := BlockOf(n - 1, c.blockSize, |data|);
      TakenIsWhole(data, c, n - 1);
      BlockIsExact(data, b, c);
      SplitEquality(TakenFrom(data, c, n - 1), TakenLines(data, b, c), WholeFrom(data, c, n - 1),
                    WholeLines(data, b, c));
    }
  }

  lemma LinesAtConcat(data: seq<byte>, a: seq<nat>, b: seq<nat>, cut: nat)
    requires forall i :: 0 <= i < |a + b| ==> (a + b)[i] < |data|
    ensures forall i :: 0 <= i < |a| ==> a[i] < |data|
    ensures forall i :: 0 <= i < |b| ==> b[i] < |data|
    ensures LinesAt(data, a + b, cut) == LinesAt(data, a, cut) + LinesAt(data, b, cut)
  {
    assert forall i :: 0 <= i < |a| ==> (a + b)[i] == a[i];
    assert forall i :: 0 <= i < |b| ==> (a + b)[|a| + i] == b[i];
  }

  /** The blocks' shares put together are the lines of the file, each exactly once and in order. */
  lemma {:induction false} WholeIsAllLines(data: seq<byte>, c: Config, n: nat)
    requires c.blockSize > 0 && 0 < n <= NumBlocks(c.blockSize, |data|)
    ensures var end := BlockOf(n - 1, c.blockSize, |data|).end;
            && (forall i :: 0 <= i < |Starts(data, 0, end)| ==> Starts(data, 0, end)[i] < |data|)
            && WholeFrom(data, c, n)
                 == DropFirst(LinesAt(data, Starts(data, 0, end), |data|), if c.hasHeader then 1 else 0)
  {
    var b := BlockOf(n - 1, c.blockSize, |data|);
    BlockBounds(n - 1, c.blockSize, |data|);
    StartsInside(data, 0, b.end);
    if n == 1 {
      FirstBlockWhole(data, c, b);
    } else {
      WholeIsAllLines(data, c, n - 1);
      BlockBounds(n - 2, c.blockSize, |data|);
      NextBlockWhole(data, c, BlockOf(n - 2, c.blockSize, |data|), b);
    }
  }

  lemma FirstBlockWhole(data: seq<byte>, c: Config, b: Block)
    requires c.blockSize > 0 && 1 <= NumBlocks(c.blockSize, |data|) && b == BlockOf(0, c.blockSize, |data|)
    ensures forall i :: 0 <= i < |Starts(data, 0, b.end)| ==> Starts(data, 0, b.end)[i] < |data|
    ensures WholeFrom(data, c, 1)
         == DropFirst(LinesAt(data, Starts(data, 0, b.end), |data|), if c.hasHeader then 1 else 0)
  {
    StartsInside(data, 0, b.end);
    assert b.idx == 0 && b.start == 0 && FirstRow(data, b) == 0;
    assert WholeFrom(data, c, 0) + WholeLines(data, b, c) == WholeLines(data, b, c);
  }

  lemma NextBlockWhole(data: seq<byte>, c: Config, before: Block, b: Block)
    requires before.end == b.start < |data| && b.idx > 0 && b.start <= b.end
    ensures forall i :: 0 <= i < |Starts(data, 0, before.end)| ==> Starts(data, 0, before.end)[i] < |data|
    ensures forall i :: 0 <= i < |Starts(data, 0, b.end)| ==> Starts(data, 0, b.end)[i] < |data|
    ensures var skip := if c.hasHeader then 1 else 0;
            DropFirst(LinesAt(data, Starts(data, 0, b.end), |data|), skip)
            == DropFirst(LinesAt(data, Starts(data, 0, before.end), |data|), skip) + WholeLines(data, b, c)
  {
    StartsInside(data, 0, before.end);
    StartsInside(data, 0, b.end);
    StartsInside(data, FirstRow(data, b), b.end);
    StartsSplit(data, 0, before.end, b.end);
    var a, o := Starts(data, 0, before.end), OwnedStarts(data, b);
    LinesAtConcat(data, a, o, |data|);
    WholeLaterBlock(data, b, c);
    DropConcat(LinesAt(data, a, |data|), LinesAt(data, o, |data|), if c.hasHeader then 1 else 0);
  }

  lemma WholeLaterBlock(data: seq<byte>, b: Block, c: Config)
    requires b.idx > 0 && b.start <= |data|
    ensures forall i :: 0 <= i < |OwnedStarts(data, b)| ==> OwnedStarts(data, b)[i] < |data|
    ensures WholeLines(data, b, c) == LinesAt(data, OwnedStarts(data, b), |data|)
  {
    StartsInside(data, FirstRow(data, b), b.end);
  }

  lemma DropConcat<T>(a: seq<T>, b: seq<T>, n: nat)
    requires n <= |a|
    ensures DropFirst(a + b, n) == DropFirst(a, n) + b
  {}

  /** The lines a sequential reader hands to the row parser. */
  function DataLines(data: seq<byte>, c: Config): seq<seq<byte>> {
    DropFirst(AllLines(data), if c.hasHeader then 1 else 0)
  }

  /** Only a header is held back, and only one line of it. */
  lemma HeaderIsDropped(data: seq<byte>, c: Config)
    ensures !c.hasHeader ==> DataLines(data, c) == AllLines(data)
    ensures c.hasHeader && data != [] ==> AllLines(data) == [AllLines(data)[0]] + DataLines(data, c)
    ensures c.hasHeader && data == [] ==> DataLines(data, c) == []
  {}

  /**
   The lines taken from all blocks are the lines of one sequential pass, each exactly
   once, whole and in file order, if and only if every block fits.
   */
  lemma ParallelLinesAreExact(data: seq<byte>, c: Config)
    requires c.blockSize > 0 && data != []
    ensures TakenFrom(data, c, NumBlocks(c.blockSize, |data|)) == DataLines(data, c)
       <==> BlocksFit(data, c, NumBlocks(c.blockSize, |data|))
  {
    var n := NumBlocks(c.blockSize, |data|);
    assert n > 0 by { DivBounds(|data| + c.blockSize - 1, c.blockSize); }
    BlockBounds(n - 1, c.blockSize, |data|);
    WholeIsAllLines(data, c, n);
    TakenIsWhole(data, c, n);
  }

  lemma {:induction false} FitsEach(data: seq<byte>, c: Config, n: nat, k: nat)
    requires c.blockSize > 0 && k < n <= NumBlocks(c.blockSize, |data|) && BlocksFit(data, c, n)
    ensures BlockOf(k, c.blockSize, |data|).start <= |data| && BlockFits(data, BlockOf(k, c.blockSize, |data|), c)
  {
    if k < n - 1 { FitsEach(data, c, n - 1, k); }
  }

  // ------------------------------------------------------------------ files that lose a line, and files that cut one

  /** The byte of the letter A. */
  const A: byte := 65

  /** A line of n bytes, its newline included. */
  function LineOfBytes(n: nat): (line: seq<byte>)
    requires n > 0
    ensures |line| == n && line[n - 1] == NEWLINE && forall i :: 0 <= i < n - 1 ==> line[i] != NEWLINE
  {
    seq(n, i => if i == n - 1 then NEWLINE else A)
  }

  lemma FirstNewline(data: seq<byte>, s: nat, e: nat)
    requires s < e <= |data| && data[e - 1] == NEWLINE && forall i :: s <= i < e - 1 ==> data[i] != NEWLINE
    ensures NextLine(data, s) == e
  {
    LineEnds(data, s);
  }

  /** Two lines one behind the other, and whatever follows them. */
  lemma TwoLines(data: seq<byte>, a: nat, b: nat, more: seq<byte>)
    requires a > 0 && b > 0 && data == LineOfBytes(a) + LineOfBytes(b) + more
    ensures |data| == a + b + |more| && NextLine(data, 0) == a && NextLine(data, a) == a + b
         && data[a + b - 1] == NEWLINE
  {
    forall i | 0 <= i < a ensures data[i] == LineOfBytes(a)[i] {}
    forall i | a <= i < a + b ensures data[i] == LineOfBytes(b)[i - a] {}
    FirstNewline(data, 0, a);
    FirstNewline(data, a, a + b);
  }

  lemma ManyBlocks(blockSize: nat, fileSize: nat, k: nat)
    requires blockSize > 0 && fileSize > k * blockSize
    ensures NumBlocks(blockSize, fileSize) > k
  {
    DivBounds(fileSize + blockSize - 1, blockSize);
    if NumBlocks(blockSize, fileSize) <= k { MulMono(NumBlocks(blockSize, fileSize), k, blockSize); }
  }

  lemma NotFitting(data: seq<byte>, c: Config, k: nat)
    requires c.blockSize > 0 && data != [] && k < NumBlocks(c.blockSize, |data|)
    requires BlockOf(k, c.blockSize, |data|).start <= |data| && !BlockFits(data, BlockOf(k, c.blockSize, |data|), c)
    ensures TakenFrom(data, c, NumBlocks(c.blockSize, |data|)) != DataLines(data, c)
  {
    var n := NumBlocks(c.blockSize, |data|);
    if BlocksFit(data, c, n) { FitsEach(data, c, n, k); }
    ParallelLinesAreExact(data, c);
  }

  /**
   For every block size: a file that begins with two lines of exactly one block each loses
   the line behind them, because the second block returns nothing.
   */
  lemma LineIsLost(c: Config, more: seq<byte>)
    requires c.blockSize > 0 && more != []
    ensures var data := LineOfBytes(c.blockSize) + LineOfBytes(c.blockSize) + more;
            var n := NumBlocks(c.blockSize, |data|);
            && n > 2 && LosesLine(data, BlockOf(1, c.blockSize, |data|))
            && TakenFrom(data, c, n) != DataLines(data, c)
  {
    var data := LineOfBytes(c.blockSize) + LineOfBytes(c.blockSize) + more;
    TwoLines(data, c.blockSize, c.blockSize, more);
    ManyBlocks(c.blockSize, |data|, 2);
    NotFitting(data, c, 1);
  }

  /**
   For every block size: a line that starts exactly at the end of the first block and is one
   byte longer than a block comes out one byte short.
   */
  lemma LineIsCut(c: Config, more: seq<byte>)
    requires c.blockSize > 0
    ensures var b := c.blockSize;
            var data := LineOfBytes(b) + LineOfBytes(b + 2) + more;
            && |LineAt(data, b, |data|)| == b + 1 && |LineAt(data, b, CutOf(data, BlockOf(0, b, |data|), b))| == b
            && TakenFrom(data, c, NumBlocks(b, |data|)) != DataLines(data, c)
  {
    var b := c.blockSize;
    var data := LineOfBytes(b) + LineOfBytes(b + 2) + more;
    TwoLines(data, b, b + 2, more);
    ManyBlocks(b, |data|, 0);
    assert Starts(data, b + (b + 2), b) == [] && Starts(data, b, b) == [b];
    assert OwnedStarts(data, BlockOf(0, b, |data|)) == [0, b];
    assert OwnedStarts(data, BlockOf(0, b, |data|))[1] == b;
    NotFitting(data, c, 0);
  }

  // ------------------------------------------------------------------ short lines fit

  predicate IsStart(data: seq<byte>, s: nat) {
    s == 0 || (s <= |data| && data[s - 1] == NEWLINE)
  }

  /** Every line, with its newline, is strictly shorter than a block. */
  ghost predicate ShortLines(data: seq<byte>, blockSize: nat) {
    forall s: nat :: s < |data| && IsStart(data, s) ==> NextLine(data, s) - s < blockSize
  }

  /** The start of the line a byte belongs to. */
  function LineOf(data: seq<byte>, x: nat): (s: nat)
    requires x < |data|
    ensures s <= x && IsStart(data, s) && NextLine(data, s) == NextLine(data, x)
    ensures forall i :: s <= i < x ==> data[i] != NEWLINE
  {
    if IsStart(data, x) then x else LineOf(data, x - 1)
  }

  lemma {:induction false} StartsAreStarts(data: seq<byte>, s: nat, limit: nat)
    requires s <= |data| && (s < |data| ==> IsStart(data, s))
    ensures forall i :: 0 <= i < |Starts(data, s, limit)| ==> IsStart(data, Starts(data, s, limit)[i])
    decreases |data| - s
  {
    if s < |data| && s <= limit {
      LineEnds(data, s);
      StartsAreStarts(data, NextLine(data, s), limit);
    }
  }

  /** A block of short lines fits: no line fills it, and none reaches behind the next block. */
  lemma ShortLinesFit(data: seq<byte>, c: Config, idx: nat)
    requires c.blockSize > 0 && idx < NumBlocks(c.blockSize, |data|) && ShortLines(data, c.blockSize)
    ensures var b := BlockOf(idx, c.blockSize, |data|);
            b.start <= |data| && BlockHolds(data, b, c)
  {
    var b := BlockOf(idx, c.blockSize, |data|);
    BlockBounds(idx, c.blockSize, |data|);
    StartsInside(data, FirstRow(data, b), b.end);
    LineEnds(data, b.start);
    StartsAreStarts(data, FirstRow(data, b), b.end);
    var s := LineOf(data, b.start);
    assert NextLine(data, s) - s < c.blockSize;
    forall i | 0 <= i < |OwnedStarts(data, b)|
      ensures NextLine(data, OwnedStarts(data, b)[i]) <= CutOf(data, b, c.blockSize)
    {
      assert IsStart(data, OwnedStarts(data, b)[i]);
    }
  }

  lemma {:induction false} AllShortLinesFit(data: seq<byte>, c: Config, n: nat)
    requires c.blockSize > 0 && n <= NumBlocks(c.blockSize, |data|) && ShortLines(data, c.blockSize)
    ensures BlocksHold(data, c, n)
  {
    if n > 0 {
      AllShortLinesFit(data, c, n - 1);
      ShortLinesFit(data, c, n - 1);
    }
  }

  // ------------------------------------------------------------------ quoted newlines

  /** Whether an odd number of quotes stands before position n. */
  predicate InQuotes(data: seq<byte>, quote: byte, n: nat)
    requires n <= |data|
  {
    n > 0 && if data[n - 1] == quote then !InQuotes(data, quote, n - 1) else InQuotes(data, quote, n - 1)
  }

  predicate QuotedAt(data: seq<byte>, quote: byte, n: nat) {
    n < |data| && data[n] == NEWLINE && data[n] != quote && InQuotes(data, quote, n)
  }

  ghost predicate HasQuoted(data: seq<byte>, quote: byte) { exists n: nat :: QuotedAt(data, quote, n) }

  /** In quotes means behind an odd number of them. */
  lemma {:induction false} InQuotesIsOdd(data: seq<byte>, quote: byte, n: nat)
    requires n <= |data|
    ensures InQuotes(data, quote, n) <==> multiset(data[..n])[quote] % 2 == 1
  {
    if n > 0 {
      InQuotesIsOdd(data, quote, n - 1);
      assert data[..n] == data[..n - 1] + [data[n - 1]];
    }
  }

  lemma QuotedMeans(data: seq<byte>, quote: byte)
    requires quote != NEWLINE
    ensures HasQuoted(data, quote)
       <==> exists n :: 0 <= n < |data| && data[n] == NEWLINE && multiset(data[..n])[quote] % 2 == 1
  {
    forall n | 0 <= n < |data|
      ensures QuotedAt(data, quote, n) <==> data[n] == NEWLINE && multiset(data[..n])[quote] % 2 == 1
    {
      InQuotesIsOdd(data, quote, n);
    }
    if n: nat :| QuotedAt(data, quote, n) {
      assert data[n] == NEWLINE && multiset(data[..n])[quote] % 2 == 1;
    }
  }

  method HasQuotedNewline(data: seq<byte>, quote: byte) returns (r: bool)
    ensures r <==> HasQuoted(data, quote)
    ensures quote != NEWLINE ==>
              (r <==> exists n :: 0 <= n < |data| && data[n] == NEWLINE && multiset(data[..n])[quote] % 2 == 1)
  {
    if quote != NEWLINE { QuotedMeans(data, quote); }
    var inQuotes := false;
    for i := 0 to |data|
      invariant inQuotes == InQuotes(data, quote, i)
      invariant forall n: nat :: n < i ==> !QuotedAt(data, quote, n)
    {
      if data[i] == quote {
        inQuotes := !inQuotes;
      } else if data[i] == NEWLINE && inQuotes {
        assert QuotedAt(data, quote, i);
        return true;
      }
    }
    r := false;
  }

  /** Blocks that return early are never scanned. */
  predicate IsScanned(data: seq<byte>, b: Block)
    requires b.start <= |data|
  {
    FirstRow(data, b) < |data| && FirstRow(data, b) < b.end
  }

  /** The bytes a block reads. */
  function SliceOf(data: seq<byte>, b: Block, c: Config): seq<byte>
    requires b.start <= |data| && b.end <= |data|
  {
    var first, cut := FirstRow(data, b), CutOf(data, b, c.blockSize);
    if first <= cut then data[first..cut] else []
  }

  lemma {:induction false} QuotesInSlice(data: seq<byte>, quote: byte, a: nat, e: nat, n: nat)
    requires a <= e <= |data| && n <= e - a
    ensures InQuotes(data[a..e], quote, n) == (InQuotes(data, quote, a + n) != InQuotes(data, quote, a))
  {
    if n > 0 {
      QuotesInSlice(data, quote, a, e, n - 1);
    }
  }

  /** Where a line starts outside quotes, a slice from there sees the newlines as the whole file does. */
  lemma QuotedInSlice(data: seq<byte>, quote: byte, a: nat, e: nat)
    requires a <= e <= |data| && !InQuotes(data, quote, a)
    ensures forall n: nat :: QuotedAt(data[a..e], quote, n) <==> n < e - a && QuotedAt(data, quote, a + n)
  {
    forall n: nat ensures QuotedAt(data[a..e], quote, n) <==> n < e - a && QuotedAt(data, quote, a + n) {
      if n < e - a { QuotesInSlice(data, quote, a, e, n); }
    }
  }

  /** A line start inside quotes means that the newline before it was a quoted one. */
  lemma StartInQuotes(data: seq<byte>, quote: byte, a: nat)
    requires a < |data| && IsStart(data, a) && quote != NEWLINE && InQuotes(data, quote, a)
    ensures a > 0 && QuotedAt(data, quote, a - 1)
  {}

  lemma ScanFindsOnlyQuoted(data: seq<byte>, b: Block, c: Config)
    requires b.start <= b.end <= |data| && c.quote != NEWLINE && IsScanned(data, b)
    requires HasQuoted(SliceOf(data, b, c), c.quote)
    ensures HasQuoted(data, c.quote)
  {
    var a, cut := FirstRow(data, b), CutOf(data, b, c.blockSize);
    if InQuotes(data, c.quote, a) {
      LineEnds(data, b.start);
      StartInQuotes(data, c.quote, a);
    } else {
      QuotedInSlice(data, c.quote, a, cut);
      var n: nat :| QuotedAt(data[a..cut], c.quote, n);
      assert QuotedAt(data, c.quote, a + n);
    }
  }

  lemma {:induction false} StartsHave(data: seq<byte>, first: nat, s: nat, limit: nat)
    requires first <= s < |data| && s <= limit && IsStart(data, s)
    ensures s in Starts(data, first, limit)
    decreases |data| - first
  {
    if first < s {
      LineEnds(data, first);
      StartsHave(data, NextLine(data, first), s, limit);
    }
  }

  /** The block that owns a line. */
  function OwnerOf(s: nat, blockSize: nat): nat
    requires blockSize > 0
  {
    if s == 0 then 0 else (s - 1) / blockSize
  }

  lemma OwnerOwns(data: seq<byte>, c: Config, s: nat)
    requires c.blockSize > 0 && s < |data| && IsStart(data, s)
    ensures var k := OwnerOf(s, c.blockSize);
            && k < NumBlocks(c.blockSize, |data|)
            && var b := BlockOf(k, c.blockSize, |data|);
               b.start <= |data| && b.end <= |data| && FirstRow(data, b) <= s <= b.end && s in OwnedStarts(data, b)
  {
    var k := OwnerOf(s, c.blockSize);
    DivBounds(|data| + c.blockSize - 1, c.blockSize);
    if s > 0 { DivBounds(s - 1, c.blockSize); }
    var n := NumBlocks(c.blockSize, |data|);
    if k >= n { MulMono(n, k, c.blockSize); }
    var b := BlockOf(k, c.blockSize, |data|);
    MulMono(k + 1, k + 1, c.blockSize);
    LineEnds(data, b.start);
    assert FirstRow(data, b) <= s;
    StartsHave(data, FirstRow(data, b), s, b.end);
  }

  /** The first quoted newline is seen by the block that owns its line. */
  lemma OwnerSeesFirst(data: seq<byte>, c: Config, b: Block, n: nat, s: nat)
    requires b.start < b.end <= |data| && c.quote != NEWLINE && BlockHolds(data, b, c)
    requires b.idx == 0 ==> b.start == 0
    requires QuotedAt(data, c.quote, n) && forall i: nat :: i < n ==> !QuotedAt(data, c.quote, i)
    requires s == LineOf(data, n) && FirstRow(data, b) <= s <= b.end && s in OwnedStarts(data, b)
    ensures IsScanned(data, b) && HasQuoted(SliceOf(data, b, c), c.quote)
  {
    var a, cut := FirstRow(data, b), CutOf(data, b, c.blockSize);
    var i :| 0 <= i < |OwnedStarts(data, b)| && OwnedStarts(data, b)[i] == s;
    assert n < NextLine(data, s) <= cut;
    assert a < b.end;
    LineEnds(data, b.start);
    assert !InQuotes(data, c.quote, a) by {
      if InQuotes(data, c.quote, a) { StartInQuotes(data, c.quote, a); }
    }
    QuotedInSlice(data, c.quote, a, cut);
    assert QuotedAt(data[a..cut], c.quote, n - a);
  }

  /** Some block that is scanned reports a quoted newline. */
  ghost predicate SomeScanReports(data: seq<byte>, c: Config, n: nat)
    requires c.blockSize > 0 && n <= NumBlocks(c.blockSize, |data|)
  {
    n > 0 && (SomeScanReports(data, c, n - 1) || ScanReports(data, c, n - 1))
  }

  ghost predicate ScanReports(data: seq<byte>, c: Config, k: nat)
    requires c.blockSize > 0 && k < NumBlocks(c.blockSize, |data|)
  {
    BlockBounds(k, c.blockSize, |data|);
    var b := BlockOf(k, c.blockSize, |data|);
    IsScanned(data, b) && HasQuoted(SliceOf(data, b, c), c.quote)
  }

  lemma {:induction false} ReportsAreQuoted(data: seq<byte>, c: Config, n: nat)
    requires c.blockSize > 0 && n <= NumBlocks(c.blockSize, |data|) && c.quote != NEWLINE
    requires SomeScanReports(data, c, n)
    ensures HasQuoted(data, c.quote)
  {
    if SomeScanReports(data, c, n - 1) {
      ReportsAreQuoted(data, c, n - 1);
    } else {
      BlockBounds(n - 1, c.blockSize, |data|);
      ScanFindsOnlyQuoted(data, BlockOf(n - 1, c.blockSize, |data|), c);
    }
  }

  lemma {:induction false} OneReportIsEnough(data: seq<byte>, c: Config, n: nat, k: nat)
    requires c.blockSize > 0 && k < n <= NumBlocks(c.blockSize, |data|) && ScanReports(data, c, k)
    ensures SomeScanReports(data, c, n)
  {
    if k < n - 1 { OneReportIsEnough(data, c, n - 1, k); }
  }

  lemma {:induction false} HoldsEach(data: seq<byte>, c: Config, n: nat, k: nat)
    requires c.blockSize > 0 && k < n <= NumBlocks(c.blockSize, |data|) && BlocksHold(data, c, n)
    ensures BlockOf(k, c.blockSize, |data|).start <= |data| && BlockHolds(data, BlockOf(k, c.blockSize, |data|), c)
  {
    if k < n - 1 { HoldsEach(data, c, n - 1, k); }
  }

  /** Scanning from the front meets some quoted newline first. */
  lemma {:induction false} FirstQuoted(data: seq<byte>, quote: byte, m: nat) returns (n: nat)
    requires QuotedAt(data, quote, m)
    ensures n <= m && QuotedAt(data, quote, n) && forall i: nat :: i < n ==> !QuotedAt(data, quote, i)
  {
    if i: nat :| i < m && QuotedAt(data, quote, i) {
      n := FirstQuoted(data, quote, i);
    } else {
      n := m;
    }
  }

  /**
   Each block restarts the quote state at its first row, and still the scans together
   are exact: some scanned block reports a quoted newline if and only if one scan of
   the whole file does, provided the blocks hold their lines.
   */
  lemma BlockScanIsExact(data: seq<byte>, c: Config)
    requires c.blockSize > 0 && c.quote != NEWLINE
    requires BlocksHold(data, c, NumBlocks(c.blockSize, |data|))
    ensures SomeScanReports(data, c, NumBlocks(c.blockSize, |data|)) <==> HasQuoted(data, c.quote)
  {
    var count := NumBlocks(c.blockSize, |data|);
    if SomeScanReports(data, c, count) { ReportsAreQuoted(data, c, count); }
    if m: nat :| QuotedAt(data, c.quote, m) {
      var k := FirstIsReported(data, c, m);
      OneReportIsEnough(data, c, count, k);
    }
  }

  lemma FirstIsReported(data: seq<byte>, c: Config, m: nat) returns (k: nat)
    requires c.blockSize > 0 && c.quote != NEWLINE && QuotedAt(data, c.quote, m)
    requires BlocksHold(data, c, NumBlocks(c.blockSize, |data|))
    ensures k < NumBlocks(c.blockSize, |data|) && ScanReports(data, c, k)
  {
    var n := FirstQuoted(data, c.quote, m);
    var s := LineOf(data, n);
    k := OwnerOf(s, c.blockSize);
    OwnerOwns(data, c, s);
    BlockBounds(k, c.blockSize, |data|);
    HoldsEach(data, c, NumBlocks(c.blockSize, |data|), k);
    OwnerSeesFirst(data, c, BlockOf(k, c.blockSize, |data|), n, s);
  }

  // ------------------------------------------------------------------ rows

  datatype Outcome<R, E> = Outcome(rows: seq<R>, errors: seq<E>)

  function Join<R, E>(a: Outcome<R, E>, b: Outcome<R, E>): Outcome<R, E> {
    Outcome(a.rows + b.rows, a.errors + b.errors)
  }

  function Add<R, E>(o: Outcome<R, E>, p: Parsed<R, E>): Outcome<R, E> {
    match p
    case Row(row) => Outcome(o.rows + [row], o.errors)
    case Bad(error) => Outcome(o.rows, o.errors + [error])
  }

  /** Rows and errors of the lines, both in the lines' order. */
  function ParseLines<R, E>(parse: seq<byte> -> Parsed<R, E>, lines: seq<seq<byte>>): Outcome<R, E> {
    if lines == [] then Outcome([], [])
    else Add(ParseLines(parse, lines[..|lines| - 1]), parse(lines[|lines| - 1]))
  }

  predicate HasBad<R, E>(parse: seq<byte> -> Parsed<R, E>, lines: seq<seq<byte>>) {
    lines != [] && (HasBad(parse, lines[..|lines| - 1]) || parse(lines[|lines| - 1]).Bad?)
  }

  lemma {:induction false} ParseConcat<R, E>(parse: seq<byte> -> Parsed<R, E>, a: seq<seq<byte>>, b: seq<seq<byte>>)
    ensures ParseLines(parse, a + b) == Join(ParseLines(parse, a), ParseLines(parse, b))
    ensures HasBad(parse, a + b) <==> HasBad(parse, a) || HasBad(parse, b)
  {
    if b == [] {
      assert a + b == a;
    } else {
      ParseConcat(parse, a, b[..|b| - 1]);
      assert (a + b)[..|a + b| - 1] == a + b[..|b| - 1];
    }
  }

  /** Without `ignore_errors` the first bad line stops the import. */
  function ParseAll<R, E>(parse: seq<byte> -> Parsed<R, E>, lines: seq<seq<byte>>,
                          ignoreErrors: bool): Result<Outcome<R, E>>
  {
    if !ignoreErrors && HasBad(parse, lines) then Err(ImportError) else Ok(ParseLines(parse, lines))
  }

  /** The rows come one by one from the good lines, all of them and in their order. */
  ghost predicate RowsFrom<R, E>(parse: seq<byte> -> Parsed<R, E>, lines: seq<seq<byte>>, rows: seq<R>, at: seq<nat>) {
    && |at| == |rows| && Increasing(at)
    && (forall i :: 0 <= i < |at| ==> at[i] < |lines| && parse(lines[at[i]]) == Row(rows[i]))
    && (forall k: nat :: k < |lines| && parse(lines[k]).Row? ==> k in at)
  }

  /** The errors come one by one from the bad lines, all of them and in their order. */
  ghost predicate ErrorsFrom<R, E>(parse: seq<byte> -> Parsed<R, E>, lines: seq<seq<byte>>, errors: seq<E>,
                                   at: seq<nat>)
  {
    && |at| == |errors| && Increasing(at)
    && (forall i :: 0 <= i < |at| ==> at[i] < |lines| && parse(lines[at[i]]) == Bad(errors[i]))
    && (forall k: nat :: k < |lines| && parse(lines[k]).Bad? ==> k in at)
  }

  lemma RowsSnoc<R, E>(parse: seq<byte> -> Parsed<R, E>, lines: seq<seq<byte>>, line: seq<byte>, rows: seq<R>,
                       at: seq<nat>)
    requires RowsFrom(parse, lines, rows, at)
    ensures match parse(line)
            case Row(row) => RowsFrom(parse, lines + [line], rows + [row], at + [|lines|])
            case Bad(_) => RowsFrom(parse, lines + [line], rows, at)
  {
    assert (at + [|lines|])[|at|] == |lines| && (lines + [line])[|lines|] == line;
    assert forall k: nat :: k < |lines| ==> (lines + [line])[k] == lines[k];
  }

  lemma ErrorsSnoc<R, E>(parse: seq<byte> -> Parsed<R, E>, lines: seq<seq<byte>>, line: seq<byte>, errors: seq<E>,
                         at: seq<nat>)
    requires ErrorsFrom(parse, lines, errors, at)
    ensures match parse(line)
            case Row(_) => ErrorsFrom(parse, lines + [line], errors, at)
            case Bad(error) => ErrorsFrom(parse, lines + [line], errors + [error], at + [|lines|])
  {
    assert (at + [|lines|])[|at|] == |lines| && (lines + [line])[|lines|] == line;
    assert forall k: nat :: k < |lines| ==> (lines + [line])[k] == lines[k];
  }

  lemma {:induction false} ParseLinesMeans<R, E>(parse: seq<byte> -> Parsed<R, E>, lines: seq<seq<byte>>)
    returns (rowsAt: seq<nat>, errorsAt: seq<nat>)
    ensures RowsFrom(parse, lines, ParseLines(parse, lines).rows, rowsAt)
    ensures ErrorsFrom(parse, lines, ParseLines(parse, lines).errors, errorsAt)
  {
    if lines == [] {
      rowsAt, errorsAt := [], [];
    } else {
      var front, line := lines[..|lines| - 1], lines[|lines| - 1];
      rowsAt, errorsAt := ParseLinesMeans(parse, front);
      RowsSnoc(parse, front, line, ParseLines(parse, front).rows, rowsAt);
      ErrorsSnoc(parse, front, line, ParseLines(parse, front).errors, errorsAt);
      assert front + [line] == lines;
      if parse(line).Row? { rowsAt := rowsAt + [|front|]; } else { errorsAt := errorsAt + [|front|]; }
    }
  }

  lemma {:induction false} SomeLineIsBad<R, E>(parse: seq<byte> -> Parsed<R, E>, lines: seq<seq<byte>>)
    ensures HasBad(parse, lines) <==> exists k: nat :: k < |lines| && parse(lines[k]).Bad?
  {
    if lines != [] {
      var front := lines[..|lines| - 1];
      SomeLineIsBad(parse, front);
      assert forall k: nat :: k < |front| ==> front[k] == lines[k];
    }
  }

  /**
   What an import of these lines returns. Without `ignore_errors` it fails exactly if some line is
   bad, with it never; and then the rows are those of the good lines and the errors those of the bad.
   */
  ghost predicate ImportOf<R, E>(parse: seq<byte> -> Parsed<R, E>, lines: seq<seq<byte>>, ignoreErrors: bool,
                                 r: Result<Outcome<R, E>>)
  {
    && (r.Err? <==> !ignoreErrors && exists k: nat :: k < |lines| && parse(lines[k]).Bad?)
    && (r.Ok? ==> (exists at :: RowsFrom(parse, lines, r.value.rows, at))
                    && exists at :: ErrorsFrom(parse, lines, r.value.errors, at))
  }

  lemma ParseAllIsImport<R, E>(parse: seq<byte> -> Parsed<R, E>, lines: seq<seq<byte>>, ignoreErrors: bool)
    ensures ImportOf(parse, lines, ignoreErrors, ParseAll(parse, lines, ignoreErrors))
  {
    var rowsAt, errorsAt := ParseLinesMeans(parse, lines);
    SomeLineIsBad(parse, lines);
  }

  /** The lines from one that starts at `s` on, as a block that ends at `end` reads them. */
  function TailLines(data: seq<byte>, s: nat, end: nat, cut: nat): seq<seq<byte>>
    decreases |data| - s
  {
    if s >= |data| || s > end then [] else [LineAt(data, s, cut)] + TailLines(data, NextLine(data, s), end, cut)
  }

  lemma {:induction false} TailIsLines(data: seq<byte>, s: nat, end: nat, cut: nat)
    ensures forall i :: 0 <= i < |Starts(data, s, end)| ==> Starts(data, s, end)[i] < |data|
    ensures TailLines(data, s, end, cut) == LinesAt(data, Starts(data, s, end), cut)
    decreases |data| - s
  {
    if s < |data| && s <= end {
      var next := NextLine(data, s);
      TailIsLines(data, next, end, cut);
      LinesAtConcat(data, [s], Starts(data, next, end), cut);
    }
  }

  /** The lines again, each with a newline behind it. */
  function Glued(lines: seq<seq<byte>>): seq<byte> {
    if lines == [] then [] else lines[0] + [NEWLINE] + Glued(lines[1..])
  }

  /** The lines are the file cut at its newlines; only a newline behind the last line may be missing. */
  lemma LinesAreTheFile(data: seq<byte>)
    ensures forall line :: line in AllLines(data) ==> NEWLINE !in line
    ensures Glued(AllLines(data)) == data + if data == [] || data[|data| - 1] == NEWLINE then [] else [NEWLINE]
  {
    TailIsLines(data, 0, |data|, |data|);
    GluedFrom(data, 0);
    assert data[0..] == data;
  }

  /** The newline that the last line may lack. */
  function LastNewline(data: seq<byte>, s: nat): seq<byte>
    requires s <= |data|
  {
    if s == |data| || data[|data| - 1] == NEWLINE then [] else [NEWLINE]
  }

  lemma {:induction false} GluedFrom(data: seq<byte>, s: nat)
    requires s <= |data|
    ensures forall line :: line in TailLines(data, s, |data|, |data|) ==> NEWLINE !in line
    ensures Glued(TailLines(data, s, |data|, |data|)) == data[s..] + LastNewline(data, s)
    decreases |data| - s
  {
    if s < |data| {
      GluedFrom(data, NextLine(data, s));
      WholeLine(data, s);
      FirstGlued(LineAt(data, s, |data|), TailLines(data, NextLine(data, s), |data|, |data|));
    }
  }

  lemma FirstGlued(line: seq<byte>, rest: seq<seq<byte>>)
    ensures Glued([line] + rest) == line + [NEWLINE] + Glued(rest)
  {
    assert ([line] + rest)[1..] == rest;
  }

  /** One line and its newline are the bytes up to the next line. */
  lemma WholeLine(data: seq<byte>, s: nat)
    requires s < |data|
    ensures var e, line := NextLine(data, s), LineAt(data, s, |data|);
            && NEWLINE !in line
            && line + [NEWLINE] + (data[e..] + LastNewline(data, e)) == data[s..] + LastNewline(data, s)
  {
    var e, line := NextLine(data, s), LineAt(data, s, |data|);
    LineEnds(data, s);
    if data[e - 1] == NEWLINE {
      LineAndRest(line, data[e..], LastNewline(data, e), data[s..]);
    } else {
      assert e == |data| && line + [NEWLINE] + ([] + []) == data[s..] + [NEWLINE];
    }
  }

  lemma LineAndRest(line: seq<byte>, rest: seq<byte>, last: seq<byte>, all: seq<byte>)
    requires all == line + [NEWLINE] + rest
    ensures line + [NEWLINE] + (rest + last) == all + last
  {}

  /** Reading one line off a block's slice is reading one line of the file, cut where the slice ends. */
  lemma SliceStep(data: seq<byte>, a: nat, cut: nat, end: nat, pos: nat)
    requires a + pos < cut <= |data| && end <= cut && (end == cut ==> cut == |data|)
    ensures var e := NextLine(data[a..cut], pos);
            && data[a..cut][pos..ContentEnd(data[a..cut], pos)] == LineAt(data, a + pos, cut)
            && (a + e == NextLine(data, a + pos) || a + e == cut <= NextLine(data, a + pos))
  {
    var slice := data[a..cut];
    assert forall i :: 0 <= i < |slice| ==> slice[i] == data[a + i];
    SliceNext(data, a, cut, slice, pos);
    SliceContent(data, a, cut, slice, pos);
    SameSlice(data, a, cut, pos, ContentEnd(slice, pos));
  }

  lemma SliceNext(data: seq<byte>, a: nat, cut: nat, slice: seq<byte>, pos: nat)
    requires a + pos < cut <= |data| && |slice| == cut - a && forall i :: 0 <= i < |slice| ==> slice[i] == data[a + i]
    ensures a + NextLine(slice, pos) == if NextLine(data, a + pos) <= cut then NextLine(data, a + pos) else cut
  {
    var e, f := NextLine(slice, pos), NextLine(data, a + pos);
    LineEnds(slice, pos);
    LineEnds(data, a + pos);
    assert e < |slice| ==> slice[e - 1] == data[a + e - 1] == NEWLINE;
    if f <= cut { assert slice[f - 1 - a] == data[f - 1]; }
  }

  lemma SliceContent(data: seq<byte>, a: nat, cut: nat, slice: seq<byte>, pos: nat)
    requires a + pos < cut <= |data| && |slice| == cut - a && forall i :: 0 <= i < |slice| ==> slice[i] == data[a + i]
    ensures a + ContentEnd(slice, pos) == if ContentEnd(data, a + pos) <= cut then ContentEnd(data, a + pos) else cut
  {
    var e, f := NextLine(slice, pos), NextLine(data, a + pos);
    SliceNext(data, a, cut, slice, pos);
    LineEnds(data, a + pos);
    assert slice[e - 1] == data[a + e - 1];
    if f > cut { assert data[cut - 1] != NEWLINE; }
  }

  lemma SameSlice<T>(data: seq<T>, a: nat, cut: nat, pos: nat, e: nat)
    requires a <= cut <= |data| && pos <= e <= cut - a
    ensures data[a..cut][pos..e] == data[a + pos..a + e]
  {
    var s, t := data[a..cut][pos..e], data[a + pos..a + e];
    assert |s| == |t| && forall k :: 0 <= k < |s| ==> s[k] == t[k];
  }

  // ------------------------------------------------------------------ one block

  predicate IsBlock(data: seq<byte>, b: Block) { b.start < b.end <= |data| && (b.idx == 0 <==> b.start == 0) }

  ghost function BlockOutcome<R, E>(data: seq<byte>, b: Block, c: Config,
                                    parse: seq<byte> -> Parsed<R, E>): Result<Outcome<R, E>>
    requires b.start <= b.end <= |data|
  {
    if !IsScanned(data, b) then Ok(Outcome([], []))
    else if HasQuoted(SliceOf(data, b, c), c.quote) then Err(QuotedNewlineInParallel)
    else ParseAll(parse, TakenLines(data, b, c), c.ignoreErrors)
  }

  method ProcessBlock<R, E>(data: seq<byte>, b: Block, c: Config, parse: seq<byte> -> Parsed<R, E>)
    returns (r: Result<Outcome<R, E>>)
    requires c.blockSize > 0 && IsBlock(data, b)
    ensures r == BlockOutcome(data, b, c, parse)
  {
    var actualStart := b.start;
    if b.idx != 0 {
      actualStart := SeekToRowStart(data, b.start);
    }
    if actualStart >= |data| || actualStart >= b.end {
      return Ok(Outcome([], []));
    }
    var cut := if b.end + c.blockSize <= |data| then b.end + c.blockSize else |data|;
    var slice := data[actualStart..cut];
    var quoted := HasQuotedNewline(slice, c.quote);
    if quoted {
      return Err(QuotedNewlineInParallel);
    }
    r := ReadSlice(data, b, c, parse, actualStart, cut);
  }

  /** The lines taken from a scanned block, read from its first row, or from the row behind the header. */
  lemma TakenIsTail(data: seq<byte>, b: Block, c: Config)
    requires IsBlock(data, b) && IsScanned(data, b)
    ensures var s, cut := FirstRow(data, b), CutOf(data, b, c.blockSize);
            TakenLines(data, b, c)
              == if b.idx == 0 && c.hasHeader then TailLines(data, NextLine(data, s), b.end, cut)
                   else TailLines(data, s, b.end, cut)
  {
    var s, cut := FirstRow(data, b), CutOf(data, b, c.blockSize);
    TailIsLines(data, s, b.end, cut);
    var all := TailLines(data, s, b.end, cut);
    assert all[1..] == TailLines(data, NextLine(data, s), b.end, cut) && DropFirst(all, 0) == all;
  }

  lemma HeaderSkipped(data: seq<byte>, a: nat, cut: nat, end: nat)
    requires a < cut <= |data| && end <= cut && (end == cut ==> cut == |data|)
    ensures a + NextLine(data[a..cut], 0) <= cut
    ensures TailLines(data, a + NextLine(data[a..cut], 0), end, cut) == TailLines(data, NextLine(data, a), end, cut)
  {
    SliceStep(data, a, cut, end, 0);
  }

  method ReadSlice<R, E>(data: seq<byte>, b: Block, c: Config, parse: seq<byte> -> Parsed<R, E>, actualStart: nat,
                         cut: nat)
    returns (r: Result<Outcome<R, E>>)
    requires c.blockSize > 0 && IsBlock(data, b) && IsScanned(data, b)
    requires actualStart == FirstRow(data, b) && cut == CutOf(data, b, c.blockSize)
    ensures r == ParseAll(parse, TakenLines(data, b, c), c.ignoreErrors)
  {
    TakenIsTail(data, b, c);
    var slice := data[actualStart..cut];
    if b.idx == 0 && c.hasHeader {
      HeaderSkipped(data, actualStart, cut, b.end);
      r := ReadLines(data, actualStart, cut, b.end, NextLine(slice, 0), c, parse);
    } else {
      r := ReadLines(data, actualStart, cut, b.end, 0, c, parse);
    }
  }

  /** The reader loop of `process_block`: stops at the first line that starts behind the block. */
  method ReadLines<R, E>(data: seq<byte>, actualStart: nat, cut: nat, end: nat, from: nat, c: Config,
                         parse: seq<byte> -> Parsed<R, E>)
    returns (r: Result<Outcome<R, E>>)
    requires actualStart + from <= cut <= |data| && end <= cut && (end == cut ==> cut == |data|)
    ensures r == ParseAll(parse, TailLines(data, actualStart + from, end, cut), c.ignoreErrors)
  {
    var slice := data[actualStart..cut];
    ghost var all := TailLines(data, actualStart + from, end, cut);
    var pos := from;
    ghost var done := [];
    r := Ok(Outcome([], []));
    while pos < |slice|
      invariant pos <= |slice|
      invariant Left(data, actualStart + pos, end, cut, all, done)
      invariant r.Ok? && r == ParseAll(parse, done, c.ignoreErrors)
    {
      if actualStart + pos > end {
        break;
      }
      var e := NextLine(slice, pos);
      var record := slice[pos..if slice[e - 1] == NEWLINE then e - 1 else e];
      ReadStep(data, actualStart, cut, end, pos, all, done, e, record);
      r := ParseRecord(parse, record, c.ignoreErrors, r.value, done);
      done := done + [record];
      if r.Err? {
        BadStops(parse, done, all);
        return;
      }
      pos := e;
    }
    NothingLeft(data, actualStart + pos, end, cut, all, done);
  }

  method ParseRecord<R, E>(parse: seq<byte> -> Parsed<R, E>, record: seq<byte>, ignoreErrors: bool, o: Outcome<R, E>,
                           ghost done: seq<seq<byte>>) returns (r: Result<Outcome<R, E>>)
    requires ParseAll(parse, done, ignoreErrors) == Ok(o)
    ensures r == ParseAll(parse, done + [record], ignoreErrors)
  {
    ParseSnoc(parse, done, record);
    match parse(record) {
      case Row(row) =>
        r := Ok(Outcome(o.rows + [row], o.errors));
      case Bad(error) =>
        r := if ignoreErrors then Ok(Outcome(o.rows, o.errors + [error])) else Err(ImportError);
    }
  }

  /** Of all lines, those from `s` on are left to read. */
  predicate Left(data: seq<byte>, s: nat, end: nat, cut: nat, all: seq<seq<byte>>, done: seq<seq<byte>>) {
    all == done + TailLines(data, s, end, cut)
  }

  lemma ReadStep(data: seq<byte>, a: nat, cut: nat, end: nat, pos: nat, all: seq<seq<byte>>, done: seq<seq<byte>>,
                 e: nat, record: seq<byte>)
    requires a + pos < cut <= |data| && a + pos <= end <= cut && (end == cut ==> cut == |data|)
    requires e == NextLine(data[a..cut], pos) && record == data[a..cut][pos..ContentEnd(data[a..cut], pos)]
    requires Left(data, a + pos, end, cut, all, done)
    ensures Left(data, a + e, end, cut, all, done + [record]) && done + [record] <= all
  {
    SliceStep(data, a, cut, end, pos);
    var rest := TailLines(data, a + e, end, cut);
    assert rest == TailLines(data, NextLine(data, a + pos), end, cut);
    Assoc(done, [record], rest);
  }

  lemma NothingLeft(data: seq<byte>, s: nat, end: nat, cut: nat, all: seq<seq<byte>>, done: seq<seq<byte>>)
    requires Left(data, s, end, cut, all, done) && (s > end || s >= |data|)
    ensures all == done
  {}

  lemma BadStops<R, E>(parse: seq<byte> -> Parsed<R, E>, done: seq<seq<byte>>, all: seq<seq<byte>>)
    requires done <= all && HasBad(parse, done)
    ensures HasBad(parse, all)
  {
    ParseConcat(parse, done, all[|done|..]);
    assert done + all[|done|..] == all;
  }

  lemma ParseSnoc<R, E>(parse: seq<byte> -> Parsed<R, E>, done: seq<seq<byte>>, record: seq<byte>)
    ensures ParseLines(parse, done + [record]) == Add(ParseLines(parse, done), parse(record))
    ensures HasBad(parse, done + [record]) <==> HasBad(parse, done) || parse(record).Bad?
  {
    assert (done + [record])[..|done|] == done;
  }

  // ------------------------------------------------------------------ all blocks

  ghost function OutcomeOf<R, E>(data: seq<byte>, c: Config, parse: seq<byte> -> Parsed<R, E>,
                                 k: nat): Result<Outcome<R, E>>
  {
    var b := BlockOf(k, c.blockSize, |data|);
    if b.start <= b.end <= |data| then BlockOutcome(data, b, c, parse) else Ok(Outcome([], []))
  }

  /** Two neighbouring results; any failure fails the whole. */
  function Combine<R, E>(before: Result<Outcome<R, E>>, last: Result<Outcome<R, E>>): Result<Outcome<R, E>> {
    if before.Ok? && last.Ok? then Ok(Join(before.value, last.value)) else Err(ImportError)
  }

  function CombineAll<R, E>(results: seq<Result<Outcome<R, E>>>): Result<Outcome<R, E>> {
    if results == [] then Ok(Outcome([], []))
    else Combine(CombineAll(results[..|results| - 1]), results[|results| - 1])
  }

  function Tabulate<T>(f: nat -> T, n: nat): (r: seq<T>)
    ensures |r| == n
  {
    if n == 0 then [] else Tabulate(f, n - 1) + [f(n - 1)]
  }

  lemma {:induction false} TabulateAt<T>(f: nat -> T, n: nat, k: nat)
    requires k < n
    ensures Tabulate(f, n)[k] == f(k)
  {
    if k < n - 1 { TabulateAt(f, n - 1, k); }
  }

  ghost function OutcomeFn<R, E>(data: seq<byte>, c: Config,
                                 parse: seq<byte> -> Parsed<R, E>): nat -> Result<Outcome<R, E>>
  {
    (k: nat) => OutcomeOf(data, c, parse, k)
  }

  /** The results of the first n blocks in block order. */
  ghost function Outcomes<R, E>(data: seq<byte>, c: Config, parse: seq<byte> -> Parsed<R, E>,
                                n: nat): seq<Result<Outcome<R, E>>>
  {
    Tabulate(OutcomeFn(data, c, parse), n)
  }

  /** What one pass over the whole file gives. */
  ghost function Sequential<R, E>(data: seq<byte>, c: Config, parse: seq<byte> -> Parsed<R, E>): Result<Outcome<R, E>> {
    if HasQuoted(data, c.quote) then Err(ImportError) else ParseAll(parse, DataLines(data, c), c.ignoreErrors)
  }

  /** The parse of some lines, unless a scan reports a quoted newline. */
  function Unless<R, E>(reports: bool, error: Error, parsed: Result<Outcome<R, E>>): Result<Outcome<R, E>> {
    if reports then Err(error) else parsed
  }

  lemma ParseAllConcat<R, E>(parse: seq<byte> -> Parsed<R, E>, a: seq<seq<byte>>, b: seq<seq<byte>>, ignoreErrors: bool)
    ensures Combine(ParseAll(parse, a, ignoreErrors), ParseAll(parse, b, ignoreErrors))
         == ParseAll(parse, a + b, ignoreErrors)
  {
    ParseConcat(parse, a, b);
  }

  /** One more result behind results that are already put together. */
  lemma CombineOneMore<R, E>(parse: seq<byte> -> Parsed<R, E>, ignoreErrors: bool, error: Error,
                             results: seq<Result<Outcome<R, E>>>, reports: bool, a: seq<seq<byte>>,
                             last: Result<Outcome<R, E>>, lastReports: bool, b: seq<seq<byte>>)
    requires CombineAll(results) == Unless(reports, ImportError, ParseAll(parse, a, ignoreErrors))
    requires last == Unless(lastReports, error, ParseAll(parse, b, ignoreErrors))
    ensures CombineAll(results + [last])
         == Unless(reports || lastReports, ImportError, ParseAll(parse, a + b, ignoreErrors))
  {
    CombineLast(results, last);
    ParseAllConcat(parse, a, b, ignoreErrors);
  }

  lemma OutcomeOfIsTaken<R, E>(data: seq<byte>, c: Config, parse: seq<byte> -> Parsed<R, E>, k: nat)
    requires c.blockSize > 0 && k < NumBlocks(c.blockSize, |data|)
    ensures BlockOf(k, c.blockSize, |data|).start <= |data|
    ensures OutcomeOf(data, c, parse, k)
         == Unless(ScanReports(data, c, k), QuotedNewlineInParallel,
                   ParseAll(parse, TakenLines(data, BlockOf(k, c.blockSize, |data|), c), c.ignoreErrors))
  {
    BlockBounds(k, c.blockSize, |data|);
    var b := BlockOf(k, c.blockSize, |data|);
    if !IsScanned(data, b) { UnscannedTakesNothing(data, b, c); }
  }

  /** The first n blocks together parse the lines they deliver, unless a scan reports a quoted newline. */
  ghost predicate CombinesTaken<R, E>(data: seq<byte>, c: Config, parse: seq<byte> -> Parsed<R, E>, n: nat)
    requires c.blockSize > 0 && n <= NumBlocks(c.blockSize, |data|)
  {
    CombineAll(Outcomes(data, c, parse, n))
    == Unless(SomeScanReports(data, c, n), ImportError, ParseAll(parse, TakenFrom(data, c, n), c.ignoreErrors))
  }

  lemma NoBlocks<R, E>(data: seq<byte>, c: Config, parse: seq<byte> -> Parsed<R, E>)
    requires c.blockSize > 0
    ensures CombinesTaken(data, c, parse, 0)
  {}

  lemma CombinedStep<R, E>(data: seq<byte>, c: Config, parse: seq<byte> -> Parsed<R, E>, n: nat)
    requires c.blockSize > 0 && 0 < n <= NumBlocks(c.blockSize, |data|) && CombinesTaken(data, c, parse, n - 1)
    ensures CombinesTaken(data, c, parse, n)
  {
    OutcomeOfIsTaken(data, c, parse, n - 1);
    CombineOneMore(parse, c.ignoreErrors, QuotedNewlineInParallel,
                   Outcomes(data, c, parse, n - 1), SomeScanReports(data, c, n - 1), TakenFrom(data, c, n - 1),
                   OutcomeOf(data, c, parse, n - 1), ScanReports(data, c, n - 1),
                   TakenLines(data, BlockOf(n - 1, c.blockSize, |data|), c));
  }

  lemma {:induction false} AllCombine<R, E>(data: seq<byte>, c: Config, parse: seq<byte> -> Parsed<R, E>, n: nat)
    requires c.blockSize > 0 && n <= NumBlocks(c.blockSize, |data|)
    ensures CombinesTaken(data, c, parse, n)
  {
    if n == 0 {
      NoBlocks(data, c, parse);
    } else {
      AllCombine(data, c, parse, n - 1);
      CombinedStep(data, c, parse, n);
    }
  }

  lemma CombinedIsTaken<R, E>(data: seq<byte>, c: Config, parse: seq<byte> -> Parsed<R, E>, n: nat)
    requires c.blockSize > 0 && n <= NumBlocks(c.blockSize, |data|)
    ensures CombineAll(Outcomes(data, c, parse, n))
         == Unless(SomeScanReports(data, c, n), ImportError, ParseAll(parse, TakenFrom(data, c, n), c.ignoreErrors))
  {
    AllCombine(data, c, parse, n);
  }

  lemma CombineLast<R, E>(before: seq<Result<Outcome<R, E>>>, last: Result<Outcome<R, E>>)
    ensures CombineAll(before + [last]) == Combine(CombineAll(before), last)
  {
    assert (before + [last])[..|before|] == before;
  }

  /** A block that returns early has no line to give. */
  lemma UnscannedTakesNothing(data: seq<byte>, b: Block, c: Config)
    requires b.start < b.end <= |data| && !IsScanned(data, b)
    ensures TakenLines(data, b, c) == []
  {
    StartsInside(data, FirstRow(data, b), b.end);
  }

  /** Where the blocks hold their lines, the combined block results are those of one pass over the file. */
  lemma CombinedIsSequential<R, E>(data: seq<byte>, c: Config, parse: seq<byte> -> Parsed<R, E>)
    requires c.blockSize > 0 && data != [] && c.quote != NEWLINE
    requires BlocksHold(data, c, NumBlocks(c.blockSize, |data|))
    ensures CombineAll(Outcomes(data, c, parse, NumBlocks(c.blockSize, |data|))) == Sequential(data, c, parse)
  {
    var n := NumBlocks(c.blockSize, |data|);
    CombinedIsTaken(data, c, parse, n);
    BlockScanIsExact(data, c);
    HoldingFits(data, c, n);
    ParallelLinesAreExact(data, c);
  }

  /** Every block is read, and the results are put together in block order. */
  method ParallelReadAll<R, E>(data: seq<byte>, c: Config, parse: seq<byte> -> Parsed<R, E>)
    returns (r: Result<Outcome<R, E>>)
    requires c.blockSize > 0
    ensures r == CombineAll(Outcomes(data, c, parse, NumBlocks(c.blockSize, |data|)))
    ensures BlocksHold(data, c, NumBlocks(c.blockSize, |data|)) && c.quote != NEWLINE
            ==> r == Sequential(data, c, parse)
    ensures ShortLines(data, c.blockSize) && c.quote != NEWLINE ==> r == Sequential(data, c, parse)
    ensures BlocksHold(data, c, NumBlocks(c.blockSize, |data|)) && c.quote != NEWLINE ==>
              if HasQuoted(data, c.quote) then r.Err? else ImportOf(parse, DataLines(data, c), c.ignoreErrors, r)
    ensures ShortLines(data, c.blockSize) ==> BlocksHold(data, c, NumBlocks(c.blockSize, |data|))
  {
    ParseAllIsImport(parse, DataLines(data, c), c.ignoreErrors);
    if data == [] {
      EmptyFile(data, c, parse);
      return Ok(Outcome([], []));
    }
    var numBlocks := NumBlocks(c.blockSize, |data|);
    var results := ProcessBlocks(data, c, parse, numBlocks);
    r := Aggregate(results);
    if ShortLines(data, c.blockSize) {
      AllShortLinesFit(data, c, numBlocks);
    }
    if BlocksHold(data, c, numBlocks) && c.quote != NEWLINE {
      CombinedIsSequential(data, c, parse);
    }
  }

  lemma EmptyFile<R, E>(data: seq<byte>, c: Config, parse: seq<byte> -> Parsed<R, E>)
    requires data == [] && c.blockSize > 0
    ensures CombineAll(Outcomes(data, c, parse, NumBlocks(c.blockSize, |data|))) == Ok(Outcome([], []))
    ensures Sequential(data, c, parse) == Ok(Outcome([], []))
  {
    var n := NumBlocks(c.blockSize, |data|);
    assert n == 0 by {
      DivBounds(c.blockSize - 1, c.blockSize);
      if n > 0 { MulMono(1, n, c.blockSize); }
    }
    assert forall n: nat :: !QuotedAt(data, c.quote, n);
    assert DataLines(data, c) == [];
  }

  function Upto(n: nat): (r: set<nat>)
    ensures forall k: nat :: k in r <==> k < n
  {
    if n == 0 then {} else Upto(n - 1) + {n - 1}
  }

  /** The workers finish the blocks in any order; each result lands in its block's place. */
  method ProcessBlocks<R, E>(data: seq<byte>, c: Config, parse: seq<byte> -> Parsed<R, E>, numBlocks: nat)
    returns (results: seq<Result<Outcome<R, E>>>)
    requires c.blockSize > 0 && numBlocks == NumBlocks(c.blockSize, |data|)
    ensures results == Outcomes(data, c, parse, numBlocks)
  {
    results := seq(numBlocks, _ => Err(ImportError));
    ghost var want := Outcomes(data, c, parse, numBlocks);
    var todo := Upto(numBlocks);
    while todo != {}
      invariant todo <= Upto(numBlocks) && |results| == numBlocks
      invariant forall k: nat :: k < numBlocks && k !in todo ==> results[k] == want[k]
      decreases |todo|
    {
      var k :| k in todo;
      var result := ProcessOne(data, c, parse, k);
      TabulateAt(OutcomeFn(data, c, parse), numBlocks, k);
      results := results[k := result];
      todo := todo - {k};
    }
  }

  method ProcessOne<R, E>(data: seq<byte>, c: Config, parse: seq<byte> -> Parsed<R, E>, k: nat)
    returns (r: Result<Outcome<R, E>>)
    requires c.blockSize > 0 && k < NumBlocks(c.blockSize, |data|)
    ensures r == OutcomeOf(data, c, parse, k)
  {
    BlockBounds(k, c.blockSize, |data|);
    if k > 0 { MulMono(1, k, c.blockSize); }
    r := ProcessBlock(data, BlockOf(k, c.blockSize, |data|), c, parse);
  }

  method Aggregate<R, E>(results: seq<Result<Outcome<R, E>>>) returns (r: Result<Outcome<R, E>>)
    ensures r == CombineAll(results)
  {
    for k := 0 to |results|
      invariant forall j :: 0 <= j < k ==> results[j].Ok?
    {
      if results[k].Err? {
        OneFailureFails(results, k);
        return Err(ImportError);
      }
    }
    var rows, errors := [], [];
    for k := 0 to |results|
      invariant CombineAll(results[..k]) == Ok(Outcome(rows, errors))
    {
      assert results[..k + 1][..k] == results[..k];
      rows := rows + results[k].value.rows;
      errors := errors + results[k].value.errors;
    }
    assert results[..|results|] == results;
    r := Ok(Outcome(rows, errors));
  }

  lemma {:induction false} OneFailureFails<R, E>(results: seq<Result<Outcome<R, E>>>, k: nat)
    requires k < |results| && results[k].Err?
    ensures CombineAll(results) == Err(ImportError)
  {
    if k < |results| - 1 { OneFailureFails(results[..|results| - 1], k); }
  }
}
