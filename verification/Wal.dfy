/**
 The write-ahead log: a header, then one frame per record. A frame is the length of
 the encoded record in four bytes, the encoding, and with checksums its checksum.
 */
module Wal {
  import opened Wrappers
  import opened Bytes
  import opened Values

  datatype Kind = BeginTransaction | Commit | Abort | TableInsertion | RelInsertion | Checkpoint | OtherKind

  datatype Payload =
    | TxPayload(tx: nat)
    | TableRows(tableId: nat, rows: seq<seq<Value>>)
    | RelEdge(relTableId: nat, src: nat, dst: nat, props: seq<Value>)
    | CheckpointPayload(checkpointId: nat)
    | OtherPayload

  datatype Record = Record(kind: Kind, txId: nat, lsn: nat, payload: Payload)

  function BeginRecord(tx: nat, lsn: nat): Record { Record(BeginTransaction, tx, lsn, TxPayload(tx)) }
  function CommitRecord(tx: nat, lsn: nat): Record { Record(Commit, tx, lsn, TxPayload(tx)) }

  /** bincode and crc32 as far as the log uses them. */
  datatype WalCodec = WalCodec(enc: Record -> seq<byte>, dec: seq<byte> -> Result<Record>, crc: seq<byte> -> nat)

  ghost predicate WalCodecOk(c: WalCodec) {
    (forall r :: c.dec(c.enc(r)) == Ok(r)) && (forall b :: c.crc(b) < U32_RANGE)
  }

  /** Decoding reads a whole encoding, though it may leave bytes behind it unread. */
  ghost predicate WholeEncodings(c: WalCodec) {
    forall b, r :: c.dec(b) == Ok(r) ==> c.enc(r) <= b
  }

  // ------------------------------------------------------------------ frames

  function Framed(c: WalCodec, checks: bool, r: Record): seq<byte> {
    var data := c.enc(r);
    ToLe32(|data|) + data + if checks then ToLe32(c.crc(data)) else []
  }

  function Frames(c: WalCodec, checks: bool, records: seq<Record>): seq<byte> {
    if records == [] then [] else Framed(c, checks, records[0]) + Frames(c, checks, records[1..])
  }

  /** What one attempt to read a record finds at the start of `bytes`. */
  datatype Found = End | Failed | Got(record: Record, size: nat)

  function TailSize(checks: bool): nat { if checks then 4 else 0 }

  function Next(c: WalCodec, checks: bool, bytes: seq<byte>): (s: Found)
    ensures s.Got? ==> 4 <= s.size <= |bytes|
  {
    if |bytes| < 4 then End
    else
      var len := FromLe32(bytes[..4]);
      if |bytes| < 4 + len + TailSize(checks) then Failed
      else
        var data := bytes[4..4 + len];
        if checks && FromLe32(bytes[4 + len..8 + len]) != c.crc(data) then Failed
        else match c.dec(data)
          case Ok(r) => Got(r, 4 + len + TailSize(checks))
          case Err(_) => Failed
  }

  /** All records up to the end of the log or the first bad frame. */
  datatype Parse = Parse(records: seq<Record>, ok: bool)

  function Before(records: seq<Record>, p: Parse): Parse { Parse(records + p.records, p.ok) }

  lemma BeforeBefore(a: seq<Record>, b: seq<Record>, p: Parse)
    ensures Before(a + b, p) == Before(a, Before(b, p)) && Before([], p) == p
    ensures Before(a, Parse([], p.ok)) == Parse(a, p.ok)
  {
    assert (a + b) + p.records == a + (b + p.records);
  }

  function ParseAll(c: WalCodec, checks: bool, bytes: seq<byte>): Parse
    decreases |bytes|
  {
    match Next(c, checks, bytes)
    case End => Parse([], true)
    case Failed => Parse([], false)
    case Got(r, size) => Before([r], ParseAll(c, checks, bytes[size..]))
  }

  predicate Short(c: WalCodec, r: Record) { |c.enc(r)| < U32_RANGE }

  lemma FrameSlices(c: WalCodec, checks: bool, r: Record, rest: seq<byte>)
    ensures var data, bytes := c.enc(r), Framed(c, checks, r) + rest;
            && |bytes| == 4 + |data| + TailSize(checks) + |rest|
            && bytes[..4] == ToLe32(|data|) && bytes[4..4 + |data|] == data
            && (checks ==> bytes[4 + |data|..8 + |data|] == ToLe32(c.crc(data)))
  {}

  /** A frame reads back as its record, whatever follows it. */
  lemma FrameReads(c: WalCodec, checks: bool, r: Record, rest: seq<byte>)
    requires WalCodecOk(c) && Short(c, r)
    ensures Next(c, checks, Framed(c, checks, r) + rest) == Got(r, |Framed(c, checks, r)|)
  {
    FrameSlices(c, checks, r, rest);
    Le32Small(|c.enc(r)|);
    Le32Small(c.crc(c.enc(r)));
    NextFinds(c, checks, Framed(c, checks, r) + rest, c.enc(r), r);
  }

  lemma Le32Small(n: nat)
    requires n < U32_RANGE
    ensures FromLe32(ToLe32(n)) == n
  {
    Le32RoundTrip(n);
  }

  lemma NextFinds(c: WalCodec, checks: bool, bytes: seq<byte>, data: seq<byte>, r: Record)
    requires |bytes| >= 4 + |data| + TailSize(checks) && FromLe32(bytes[..4]) == |data| && bytes[4..4 + |data|] == data
    requires checks ==> FromLe32(bytes[4 + |data|..8 + |data|]) == c.crc(data)
    requires c.dec(data) == Ok(r)
    ensures Next(c, checks, bytes) == Got(r, 4 + |data| + TailSize(checks))
  {}

  /** The length prefix has 32 bits, so a frame reads back exactly if its encoding is shorter than 4 GiB. */
  lemma FrameReadsIffShort(c: WalCodec, checks: bool, r: Record, rest: seq<byte>)
    requires WalCodecOk(c) && WholeEncodings(c)
    ensures Next(c, checks, Framed(c, checks, r) + rest) == Got(r, |Framed(c, checks, r)|) <==> Short(c, r)
  {
    if Short(c, r) {
      FrameReads(c, checks, r, rest);
    } else {
      var bytes := Framed(c, checks, r) + rest;
      Le32RoundTrip(|c.enc(r)|);
      assert bytes[..4] == ToLe32(|c.enc(r)|);
    }
  }

  lemma FrameParses(c: WalCodec, checks: bool, r: Record, rest: seq<byte>)
    requires WalCodecOk(c) && Short(c, r)
    ensures ParseAll(c, checks, Framed(c, checks, r) + rest) == Before([r], ParseAll(c, checks, rest))
  {
    FrameReads(c, checks, r, rest);
    assert (Framed(c, checks, r) + rest)[|Framed(c, checks, r)|..] == rest;
  }

  /** Reading a log back under the flag it was written with gives the records, then what follows them. */
  lemma {:induction false} LogReadsBack(c: WalCodec, checks: bool, records: seq<Record>, rest: seq<byte>)
    requires WalCodecOk(c) && forall r :: r in records ==> Short(c, r)
    ensures ParseAll(c, checks, Frames(c, checks, records) + rest) == Before(records, ParseAll(c, checks, rest))
  {
    if records == [] {
      assert Frames(c, checks, records) + rest == rest;
      BeforeBefore([], [], ParseAll(c, checks, rest));
    } else {
      var first, more := Framed(c, checks, records[0]), Frames(c, checks, records[1..]);
      assert Frames(c, checks, records) + rest == first + (more + rest);
      FrameParses(c, checks, records[0], more + rest);
      LogReadsBack(c, checks, records[1..], rest);
      BeforeBefore([records[0]], records[1..], ParseAll(c, checks, rest));
      assert records == [records[0]] + records[1..];
    }
  }

  /** How many whole frames lie in the first n bytes. */
  function WholeFrames(c: WalCodec, checks: bool, records: seq<Record>, n: nat): (k: nat)
    ensures k <= |records|
  {
    if records == [] || n < |Framed(c, checks, records[0])| then 0
    else 1 + WholeFrames(c, checks, records[1..], n - |Framed(c, checks, records[0])|)
  }

  /** Reading frame by frame until the cut. */
  function CutParse(c: WalCodec, checks: bool, records: seq<Record>, n: nat): Parse {
    if records == [] || n < |Framed(c, checks, records[0])| then Parse([], n < 4)
    else Before([records[0]], CutParse(c, checks, records[1..], n - |Framed(c, checks, records[0])|))
  }

  lemma {:induction false} CutParses(c: WalCodec, checks: bool, records: seq<Record>, n: nat)
    requires WalCodecOk(c) && forall r :: r in records ==> Short(c, r)
    requires n <= |Frames(c, checks, records)|
    ensures ParseAll(c, checks, Frames(c, checks, records)[..n]) == CutParse(c, checks, records, n)
  {
    if records != [] {
      var first, more := Framed(c, checks, records[0]), Frames(c, checks, records[1..]);
      if n < |first| {
        CutFirstFrame(c, checks, records[0], more, n);
      } else {
        CutParses(c, checks, records[1..], n - |first|);
        CutLaterFrame(c, checks, records[0], more, n);
      }
    }
  }

  lemma CutLaterFrame(c: WalCodec, checks: bool, r: Record, more: seq<byte>, n: nat)
    requires WalCodecOk(c) && Short(c, r) && |Framed(c, checks, r)| <= n <= |Framed(c, checks, r)| + |more|
    ensures ParseAll(c, checks, (Framed(c, checks, r) + more)[..n])
         == Before([r], ParseAll(c, checks, more[..n - |Framed(c, checks, r)|]))
  {
    TakeConcat(Framed(c, checks, r), more, n);
    FrameInFront(c, checks, r, more[..n - |Framed(c, checks, r)|], (Framed(c, checks, r) + more)[..n]);
  }

  lemma FrameInFront(c: WalCodec, checks: bool, r: Record, rest: seq<byte>, bytes: seq<byte>)
    requires WalCodecOk(c) && Short(c, r) && bytes == Framed(c, checks, r) + rest
    ensures ParseAll(c, checks, bytes) == Before([r], ParseAll(c, checks, rest))
  {
    FrameParses(c, checks, r, rest);
  }

  lemma CutFirstFrame(c: WalCodec, checks: bool, r: Record, more: seq<byte>, n: nat)
    requires WalCodecOk(c) && Short(c, r) && n < |Framed(c, checks, r)|
    ensures ParseAll(c, checks, (Framed(c, checks, r) + more)[..n]) == Parse([], n < 4)
  {
    var first := Framed(c, checks, r);
    assert (first + more)[..n] == first[..n];
    TornFrame(c, checks, r, n);
  }

  lemma {:induction false} WholeFramesFit(c: WalCodec, checks: bool, records: seq<Record>, n: nat)
    ensures var k := WholeFrames(c, checks, records, n);
            && |Frames(c, checks, records[..k])| <= n
            && (k < |records| ==> n < |Frames(c, checks, records[..k + 1])|)
  {
    if records != [] && n >= |Framed(c, checks, records[0])| {
      var rest, m := records[1..], n - |Framed(c, checks, records[0])|;
      var k := WholeFrames(c, checks, rest, m);
      WholeFramesFit(c, checks, rest, m);
      FramesCons(c, checks, records, k + 1);
      if k < |rest| { FramesCons(c, checks, records, k + 2); }
    } else if records != [] {
      FramesCons(c, checks, records, 1);
    }
  }

  lemma {:induction false} CutKeepsWholeFrames(c: WalCodec, checks: bool, records: seq<Record>, n: nat)
    ensures var k := WholeFrames(c, checks, records, n);
            CutParse(c, checks, records, n) == Parse(records[..k], n - |Frames(c, checks, records[..k])| < 4)
  {
    var k := WholeFrames(c, checks, records, n);
    if k > 0 {
      CutKeepsWholeFrames(c, checks, records[1..], n - |Framed(c, checks, records[0])|);
      FramesCons(c, checks, records, k);
    }
  }

  lemma FramesCons(c: WalCodec, checks: bool, records: seq<Record>, k: nat)
    requires 0 < k <= |records|
    ensures records[..k] == [records[0]] + records[1..][..k - 1]
    ensures |Frames(c, checks, records[..k])|
         == |Framed(c, checks, records[0])| + |Frames(c, checks, records[1..][..k - 1])|
  {
    TakeCons(records, k);
  }

  /**
   A log cut off at any byte reads as its whole frames. The end is clean exactly if
   fewer than four bytes of the next frame are left; otherwise reading fails.
   */
  lemma CutReads(c: WalCodec, checks: bool, records: seq<Record>, n: nat)
    requires WalCodecOk(c) && forall r :: r in records ==> Short(c, r)
    requires n <= |Frames(c, checks, records)|
    ensures var k := WholeFrames(c, checks, records, n);
            && |Frames(c, checks, records[..k])| <= n
            && (k < |records| ==> n < |Frames(c, checks, records[..k + 1])|)
            && ParseAll(c, checks, Frames(c, checks, records)[..n])
               == Parse(records[..k], n - |Frames(c, checks, records[..k])| < 4)
  {
    CutParses(c, checks, records, n);
    WholeFramesFit(c, checks, records, n);
    CutKeepsWholeFrames(c, checks, records, n);
  }

  lemma TakeConcat<T>(a: seq<T>, b: seq<T>, n: nat)
    requires |a| <= n <= |a| + |b|
    ensures (a + b)[..n] == a + b[..n - |a|]
  {}

  lemma TakeCons<T>(s: seq<T>, k: nat)
    requires 0 < k <= |s|
    ensures s[..k] == [s[0]] + s[1..][..k - 1] && s[..k][1..] == s[1..][..k - 1]
  {}

  lemma TornFrame(c: WalCodec, checks: bool, r: Record, n: nat)
    requires WalCodecOk(c) && Short(c, r) && n < |Framed(c, checks, r)|
    ensures Next(c, checks, Framed(c, checks, r)[..n]) == if n < 4 then End else Failed
  {
    var data, bytes := c.enc(r), Framed(c, checks, r);
    Le32RoundTrip(|data|);
    if n >= 4 { assert bytes[..n][..4] == ToLe32(|data|); }
  }

  /** What is read with checksums takes up at least the bytes its records were written with. */
  lemma {:induction false} ReadingTakesBytes(c: WalCodec, checks: bool, bytes: seq<byte>)
    requires WholeEncodings(c)
    ensures |Frames(c, checks, ParseAll(c, checks, bytes).records)| <= |bytes|
    decreases |bytes|
  {
    var s := Next(c, checks, bytes);
    if s.Got? {
      ReadingTakesBytes(c, checks, bytes[s.size..]);
      var p := ParseAll(c, checks, bytes);
      assert p.records[1..] == ParseAll(c, checks, bytes[s.size..]).records;
      var data := bytes[4..s.size - TailSize(checks)];
      assert c.dec(data) == Ok(s.record);
      assert c.enc(s.record) <= data;
    }
  }

  lemma {:induction false} ChecksumsTakeSpace(c: WalCodec, records: seq<Record>)
    ensures |Frames(c, true, records)| == |Frames(c, false, records)| + 4 * |records|
  {
    if records != [] { ChecksumsTakeSpace(c, records[1..]); }
  }

  /**
   The writer takes the checksum flag from the configuration, the reader from the
   header. Records appended without checksums to a log whose header asks for them
   never read back.
   */
  lemma UncheckedFramesAreLost(c: WalCodec, records: seq<Record>)
    requires WalCodecOk(c) && WholeEncodings(c)
    ensures ParseAll(c, true, Frames(c, false, records)) == Parse(records, true) <==> records == []
  {
    ReadingTakesBytes(c, true, Frames(c, false, records));
    ChecksumsTakeSpace(c, records);
  }

  // ------------------------------------------------------------------ frames read from the wrong place

  /** The encoding shows again k bytes before its place in its own frame. */
  ghost predicate Shifted(c: WalCodec, r: Record, k: nat)
    requires 1 <= k <= 4
  {
    c.enc(r) <= (ToLe32(|c.enc(r)|) + c.enc(r))[4 - k..]
  }

  /** A reader that starts one to four bytes before a frame does not find its record, with checksums or without. */
  lemma EarlyReadMisses(c: WalCodec, checks: bool, front: seq<byte>, written: bool, r: Record, rest: seq<byte>)
    requires WholeEncodings(c) && 1 <= |front| <= 4 && !Shifted(c, r, |front|)
    ensures var s := Next(c, checks, front + (Framed(c, written, r) + rest));
            s != End && (s.Got? ==> s.record != r)
  {
    if ReadsFirst(c, checks, front + (Framed(c, written, r) + rest), r) {
      EarlyReadShows(c, checks, front, written, r, rest);
    }
  }

  ghost predicate ReadsFirst(c: WalCodec, checks: bool, bytes: seq<byte>, r: Record) {
    Next(c, checks, bytes).Got? && Next(c, checks, bytes).record == r
  }

  lemma EarlyReadShows(c: WalCodec, checks: bool, front: seq<byte>, written: bool, r: Record, rest: seq<byte>)
    requires WholeEncodings(c) && 1 <= |front| <= 4 && ReadsFirst(c, checks, front + (Framed(c, written, r) + rest), r)
    ensures Shifted(c, r, |front|)
  {
    var frame, bytes := ToLe32(|c.enc(r)|) + c.enc(r), front + (Framed(c, written, r) + rest);
    var data := bytes[4..Next(c, checks, bytes).size - TailSize(checks)];
    assert c.dec(data) == Ok(r);
    FrameIsPrefix(c, written, r, rest);
    SliceOfConcat(front, Framed(c, written, r) + rest, frame, c.enc(r));
  }

  lemma FrameIsPrefix(c: WalCodec, written: bool, r: Record, rest: seq<byte>)
    ensures ToLe32(|c.enc(r)|) + c.enc(r) <= Framed(c, written, r) + rest
  {}

  lemma SliceOfConcat(front: seq<byte>, bytes: seq<byte>, frame: seq<byte>, data: seq<byte>)
    requires 1 <= |front| <= 4 && frame <= bytes && |frame| == 4 + |data| && data <= (front + bytes)[4..]
    ensures data <= frame[4 - |front|..]
  {
    assert (front + bytes)[4..] == bytes[4 - |front|..];
  }

  /** A record whose length does not fit its prefix is not read back. */
  lemma LongFrameMisses(c: WalCodec, checks: bool, written: bool, r: Record, rest: seq<byte>)
    requires WholeEncodings(c) && !Short(c, r)
    ensures var s := Next(c, checks, Framed(c, written, r) + rest);
            s != End && (s.Got? ==> s.record != r)
  {
    var bytes := Framed(c, written, r) + rest;
    var s := Next(c, checks, bytes);
    if s.Got? {
      var data := bytes[4..s.size - TailSize(checks)];
      assert c.dec(data) == Ok(s.record) && |data| < U32_RANGE;
      assert c.enc(s.record) <= data;
    }
  }

  /** A first record that is not the one wanted. */
  lemma OtherRecord(c: WalCodec, checks: bool, bytes: seq<byte>, records: seq<Record>)
    requires var s := Next(c, checks, bytes); s != End && (s.Got? ==> records == [] || s.record != records[0])
    ensures ParseAll(c, checks, bytes) != Parse(records, true)
  {
    var s := Next(c, checks, bytes);
    if s.Got? { assert ParseAll(c, checks, bytes).records[0] == s.record; }
  }

  /** A log reads back under its own flag exactly if every encoding is shorter than 4 GiB. */
  lemma {:induction false} LogReadsIffShort(c: WalCodec, checks: bool, records: seq<Record>)
    requires WalCodecOk(c) && WholeEncodings(c)
    ensures ParseAll(c, checks, Frames(c, checks, records)) == Parse(records, true)
       <==> forall r :: r in records ==> Short(c, r)
  {
    if records != [] {
      var more := Frames(c, checks, records[1..]);
      if Short(c, records[0]) {
        LogReadsIffShort(c, checks, records[1..]);
        FrameParses(c, checks, records[0], more);
        ConsParse(records, ParseAll(c, checks, more));
        assert forall r :: r in records <==> r == records[0] || r in records[1..];
      } else {
        LongFrameMisses(c, checks, checks, records[0], more);
        OtherRecord(c, checks, Frames(c, checks, records), records);
        assert records[0] in records;
      }
    }
  }

  lemma ConsParse(records: seq<Record>, p: Parse)
    requires records != []
    ensures Before([records[0]], p) == Parse(records, true) <==> p == Parse(records[1..], true)
  {
    assert [records[0]] + records[1..] == records;
    assert ([records[0]] + p.records)[1..] == p.records;
  }

  /**
   A crash can leave one to three bytes of a frame. They read as a clean end, and the
   writer appends behind them; whatever it appends is then read from the wrong place. The
   log reads back exactly if nothing was left over and the new encodings are short, or
   nothing was appended.
   */
  lemma AppendedReads(c: WalCodec, checks: bool, log: seq<Record>, tail: seq<byte>, more: seq<Record>)
    requires WalCodecOk(c) && WholeEncodings(c) && |tail| < 4 && forall r :: r in log ==> Short(c, r)
    requires tail != [] && more != [] ==> !Shifted(c, more[0], |tail|)
    ensures ParseAll(c, checks, Frames(c, checks, log) + (tail + Frames(c, checks, more))) == Parse(log + more, true)
       <==> more == [] || (tail == [] && forall r :: r in more ==> Short(c, r))
  {
    var bytes := tail + Frames(c, checks, more);
    LogReadsBack(c, checks, log, bytes);
    assert (log + ParseAll(c, checks, bytes).records)[|log|..] == ParseAll(c, checks, bytes).records;
    assert (log + more)[|log|..] == more;
    if more == [] {
      assert bytes == tail;
    } else if tail == [] {
      assert bytes == Frames(c, checks, more);
      LogReadsIffShort(c, checks, more);
    } else {
      EarlyReadMisses(c, checks, tail, checks, more[0], Frames(c, checks, more[1..]));
      OtherRecord(c, checks, bytes, more);
    }
  }

  /**
   The other way round a checksum is taken for the length of the next record: a record
   appended with checksums under a header without them reads back, and then its checksum
   is read as a length.
   */
  lemma CheckedFrameMisreads(c: WalCodec, r: Record, rest: seq<byte>)
    requires WalCodecOk(c) && Short(c, r)
    ensures ParseAll(c, false, Framed(c, true, r) + rest)
         == Before([r], ParseAll(c, false, ToLe32(c.crc(c.enc(r))) + rest))
  {
    var tail := ToLe32(c.crc(c.enc(r)));
    assert Framed(c, true, r) + rest == Framed(c, false, r) + (tail + rest);
    FrameParses(c, false, r, tail + rest);
  }

  /** A single record with a checksum makes reading fail, unless no bytes at all decode to some record. */
  lemma LastChecksumFails(c: WalCodec, r: Record)
    requires WalCodecOk(c) && Short(c, r) && forall b :: c.dec(b).Ok? ==> b != []
    ensures ParseAll(c, false, Framed(c, true, r)) == Parse([r], false)
  {
    var tail := ToLe32(c.crc(c.enc(r)));
    CheckedFrameMisreads(c, r, []);
    assert Framed(c, true, r) + [] == Framed(c, true, r) && tail + [] == tail;
    assert tail[..4] == tail && tail[4..4] == [];
    Le32Small(c.crc(c.enc(r)));
    assert Next(c, false, tail) == Failed;
    assert [r] + [] == [r];
  }

  /** Records appended with checksums under a header without them never read back either. */
  lemma CheckedFramesAreLost(c: WalCodec, records: seq<Record>)
    requires WalCodecOk(c) && WholeEncodings(c) && (|records| > 1 ==> !Shifted(c, records[1], 4))
    ensures ParseAll(c, false, Frames(c, true, records)) == Parse(records, true) <==> records == []
  {
    if records != [] {
      var r, more := records[0], Frames(c, true, records[1..]);
      var tail := ToLe32(c.crc(c.enc(r)));
      if Short(c, r) {
        CheckedFrameMisreads(c, r, more);
        ConsParse(records, ParseAll(c, false, tail + more));
        if |records| > 1 {
          EarlyReadMisses(c, false, tail, true, records[1], Frames(c, true, records[1..][1..]));
        }
        OtherRecord(c, false, tail + more, records[1..]);
      } else {
        LongFrameMisses(c, false, true, r, more);
        OtherRecord(c, false, Frames(c, true, records), records);
      }
    }
  }

  // ------------------------------------------------------------------ the file

  const MAGIC: seq<byte> := [82, 85, 90, 85, 87, 65, 76, 0]
  const WAL_VERSION: nat := 1
  const HEADER_SIZE: nat := 29

  function HeaderBytes(databaseId: seq<byte>, checks: bool): (b: seq<byte>)
    requires |databaseId| == 16
    ensures |b| == HEADER_SIZE
  {
    MAGIC + ToLe32(WAL_VERSION) + databaseId + [if checks then 1 else 0]
  }

  /** `read_header` and `validate`: the checksum flag of a good header. */
  function OpenHeader(file: seq<byte>): Result<bool> {
    if |file| < HEADER_SIZE then Err(StorageError)
    else if file[..8] != MAGIC || FromLe32(file[8..12]) > WAL_VERSION then Err(StorageError)
    else Ok(file[28] != 0)
  }

  lemma HeaderOpens(databaseId: seq<byte>, checks: bool, rest: seq<byte>)
    requires |databaseId| == 16
    ensures OpenHeader(HeaderBytes(databaseId, checks) + rest) == Ok(checks)
  {
    var file := HeaderBytes(databaseId, checks) + rest;
    assert file[..8] == MAGIC;
    assert file[8..12] == ToLe32(WAL_VERSION);
    Le32RoundTrip(WAL_VERSION);
  }

  /** Short files, wrong magic bytes and newer versions are refused; otherwise byte 28 is the flag. */
  lemma HeaderMeans(file: seq<byte>)
    ensures |file| < 29 ==> OpenHeader(file).Err?
    ensures |file| >= 29 ==>
              (OpenHeader(file).Err? <==>
                 (exists i :: 0 <= i < 8 && file[i] != MAGIC[i])
                 || file[8] as nat + 256 * file[9] as nat + 65536 * file[10] as nat + 16777216 * file[11] as nat > 1)
    ensures OpenHeader(file).Ok? ==> |file| >= 29 && OpenHeader(file).value == (file[28] != 0)
  {
    if |file| >= 29 {
      assert file[..8] == MAGIC <==> forall i :: 0 <= i < 8 ==> file[..8][i] == MAGIC[i];
      assert forall i :: 0 <= i < 8 ==> file[..8][i] == file[i];
    }
  }

  /** The file holds this header and the frames of these records. */
  ghost predicate IsLog(c: WalCodec, file: seq<byte>, checks: bool, records: seq<Record>) {
    && |file| >= HEADER_SIZE && OpenHeader(file) == Ok(checks)
    && file[HEADER_SIZE..] == Frames(c, checks, records)
    && forall r :: r in records ==> Short(c, r)
  }

  lemma {:induction false} FramesAppend(c: WalCodec, checks: bool, records: seq<Record>, r: Record)
    ensures Frames(c, checks, records + [r]) == Frames(c, checks, records) + Framed(c, checks, r)
  {
    if records == [] {
      assert records + [r] == [r] && [r][1..] == [];
    } else {
      assert (records + [r])[1..] == records[1..] + [r];
      FramesAppend(c, checks, records[1..], r);
      var a, b, d := Framed(c, checks, records[0]), Frames(c, checks, records[1..]), Framed(c, checks, r);
      assert a + (b + d) == (a + b) + d;
    }
  }

  lemma AppendKeepsLog(c: WalCodec, file: seq<byte>, checks: bool, records: seq<Record>, r: Record)
    requires IsLog(c, file, checks, records) && Short(c, r)
    ensures IsLog(c, file + Framed(c, checks, r), checks, records + [r])
  {
    FramesAppend(c, checks, records, r);
    var file' := file + Framed(c, checks, r);
    assert file'[..8] == file[..8] && file'[8..12] == file[8..12];
    assert file'[HEADER_SIZE..] == file[HEADER_SIZE..] + Framed(c, checks, r);
  }

  // ------------------------------------------------------------------ the file after appends and crashes

  /** Every encoding has a 32-bit length. */
  ghost predicate AllShort(c: WalCodec, records: seq<Record>) { forall r :: r in records ==> Short(c, r) }

  lemma HeaderStays(file: seq<byte>, file': seq<byte>)
    requires file <= file'
    ensures OpenHeader(file).Ok? ==> OpenHeader(file') == OpenHeader(file)
  {
    if |file| >= HEADER_SIZE {
      assert file'[..8] == file[..8] && file'[8..12] == file[8..12] && file'[28] == file[28];
    }
  }

  lemma BodyOfCut(file: seq<byte>, n: nat)
    requires HEADER_SIZE <= n <= |file|
    ensures file[..n][HEADER_SIZE..] == file[HEADER_SIZE..][..n - HEADER_SIZE]
  {}

  lemma HeaderOfCut(file: seq<byte>, n: nat)
    requires HEADER_SIZE <= n <= |file|
    ensures OpenHeader(file[..n]) == OpenHeader(file)
  {
    var head := file[..n];
    assert head[..8] == file[..8] && head[8..12] == file[8..12] && head[28] == file[28];
  }

  lemma {:induction false} FramesOfPrefix(c: WalCodec, checks: bool, log: seq<Record>, j: nat, k: nat)
    requires j <= k <= |log|
    ensures |Frames(c, checks, log[..j])| <= |Frames(c, checks, log[..k])|
    decreases k
  {
    if j < k {
      FramesOfPrefix(c, checks, log, j, k - 1);
      FramesAppend(c, checks, log[..k - 1], log[k - 1]);
      assert log[..k - 1] + [log[k - 1]] == log[..k];
    }
  }

  lemma LongerLog(c: WalCodec, checks: bool, prefix: seq<Record>, log: seq<Record>, k: nat)
    requires prefix <= log && k < |prefix|
    ensures |Frames(c, checks, log[..k + 1])| <= |Frames(c, checks, prefix)|
  {
    assert log[..|prefix|] == prefix;
    FramesOfPrefix(c, checks, log, k + 1, |prefix|);
  }

  /** A cut behind the frames of a prefix keeps the prefix; no cut keeps everything. */
  lemma WholeFramesKept(c: WalCodec, checks: bool, before: seq<Record>, log: seq<Record>, k: nat, n: nat)
    requires before <= log && k <= |log| && |Frames(c, checks, before)| <= n <= |Frames(c, checks, log)|
    requires k < |log| ==> n < |Frames(c, checks, log[..k + 1])|
    ensures |before| <= k && (n == |Frames(c, checks, log)| ==> k == |log|)
  {
    assert log[..|before|] == before && log[..|log|] == log;
    if k < |before| { FramesOfPrefix(c, checks, log, k + 1, |before|); }
    if k < |log| { FramesOfPrefix(c, checks, log, k + 1, |log|); }
  }

  lemma ThreeFrames(c: WalCodec, checks: bool, file: seq<byte>, r: Record, r': Record, r'': Record)
    ensures file + Framed(c, checks, r) + Framed(c, checks, r') + Framed(c, checks, r'')
         == file + Frames(c, checks, [r, r', r''])
  {
    FramesAppend(c, checks, [], r);
    FramesAppend(c, checks, [r], r');
    FramesAppend(c, checks, [r, r'], r'');
    assert [] + [r] == [r] && [r] + [r'] == [r, r'] && [r, r'] + [r''] == [r, r', r''];
    var a, b, d := Framed(c, checks, r), Framed(c, checks, r'), Framed(c, checks, r'');
    assert Frames(c, checks, []) + a == a;
    assert file + a + b + d == file + (a + b + d);
  }

  lemma {:induction false} FramesConcat(c: WalCodec, checks: bool, a: seq<Record>, b: seq<Record>)
    ensures Frames(c, checks, a + b) == Frames(c, checks, a) + Frames(c, checks, b)
  {
    if a == [] {
      assert a + b == b;
    } else {
      assert (a + b)[1..] == a[1..] + b;
      FramesConcat(c, checks, a[1..], b);
      Assoc(Framed(c, checks, a[0]), Frames(c, checks, a[1..]), Frames(c, checks, b));
    }
  }

  /** What opening the file reads. */
  ghost predicate ParsesAs(c: WalCodec, checks: bool, file: seq<byte>, p: Parse) {
    |file| >= HEADER_SIZE && OpenHeader(file) == Ok(checks) && ParseAll(c, checks, file[HEADER_SIZE..]) == p
  }

  /** Opening the file reads these records, up to a clean end. */
  ghost predicate ReadsAs(c: WalCodec, checks: bool, file: seq<byte>, records: seq<Record>) {
    ParsesAs(c, checks, file, Parse(records, true))
  }

  /** The file holds the frames of these records, and behind them fewer than four bytes of a frame that a crash tore. */
  ghost predicate HoldsLog(c: WalCodec, checks: bool, file: seq<byte>, records: seq<Record>, tail: seq<byte>) {
    && |file| >= HEADER_SIZE && OpenHeader(file) == Ok(checks) && AllShort(c, records)
    && file[HEADER_SIZE..] == Frames(c, checks, records) + tail && |tail| < 4
  }

  lemma LogIsHeld(c: WalCodec, file: seq<byte>, checks: bool, records: seq<Record>)
    ensures IsLog(c, file, checks, records) <==> HoldsLog(c, checks, file, records, [])
  {
    assert Frames(c, checks, records) + [] == Frames(c, checks, records);
  }

  lemma HeldReads(c: WalCodec, checks: bool, file: seq<byte>, records: seq<Record>, tail: seq<byte>)
    requires WalCodecOk(c) && HoldsLog(c, checks, file, records, tail)
    ensures ReadsAs(c, checks, file, records)
  {
    LogReadsBack(c, checks, records, tail);
    BeforeBefore(records, [], Parse([], true));
  }

  lemma HeaderOfAppend(file: seq<byte>, more: seq<byte>)
    requires |file| >= HEADER_SIZE && OpenHeader(file).Ok?
    ensures OpenHeader(file + more) == OpenHeader(file) && (file + more)[HEADER_SIZE..] == file[HEADER_SIZE..] + more
  {
    HeaderStays(file, file + more);
  }

  /** What the writer appends reads back exactly if no torn bytes are in front of it and its encodings are short. */
  lemma AppendedFileReads(c: WalCodec, checks: bool, file: seq<byte>, log: seq<Record>, tail: seq<byte>,
                          more: seq<Record>)
    requires WalCodecOk(c) && WholeEncodings(c) && HoldsLog(c, checks, file, log, tail)
    requires more != [] && (tail != [] ==> !Shifted(c, more[0], |tail|))
    ensures var file' := file + Frames(c, checks, more);
            && (ReadsAs(c, checks, file', log + more) <==> tail == [] && AllShort(c, more))
            && (tail == [] && AllShort(c, more) ==> HoldsLog(c, checks, file', log + more, []))
  {
    HeaderOfAppend(file, Frames(c, checks, more));
    Assoc(Frames(c, checks, log), tail, Frames(c, checks, more));
    AppendedReads(c, checks, log, tail, more);
    FramesConcat(c, checks, log, more);
    NothingBehind(Frames(c, checks, log), Frames(c, checks, more));
  }

  lemma NothingBehind(a: seq<byte>, b: seq<byte>)
    ensures a + ([] + b) == (a + b) + []
  {}

  /** How many bytes behind the last whole frame a cut leaves. */
  function TornBytes(c: WalCodec, checks: bool, log: seq<Record>, n: nat): int {
    n - |Frames(c, checks, log[..WholeFrames(c, checks, log, n)])|
  }

  /** A cut leaves whole frames, and the bytes behind them. */
  lemma CutLeaves(c: WalCodec, checks: bool, log: seq<Record>, tail: seq<byte>, n: nat) returns (left: seq<byte>)
    requires n <= |Frames(c, checks, log)| + |tail|
    ensures (Frames(c, checks, log) + tail)[..n] == Frames(c, checks, log[..WholeFrames(c, checks, log, n)]) + left
    ensures |left| == TornBytes(c, checks, log, n)
  {
    var k := WholeFrames(c, checks, log, n);
    WholeFramesFit(c, checks, log, n);
    TakeDrop(log, k);
    FramesConcat(c, checks, log[..k], log[k..]);
    left := CutBehind(Frames(c, checks, log[..k]), Frames(c, checks, log[k..]), Frames(c, checks, log), tail, n);
  }

  lemma TakeDrop<T>(s: seq<T>, k: nat)
    requires k <= |s|
    ensures s[..k] + s[k..] == s
  {}

  lemma CutBehind<T>(whole: seq<T>, rest: seq<T>, all: seq<T>, tail: seq<T>, n: nat) returns (left: seq<T>)
    requires all == whole + rest && |whole| <= n <= |all| + |tail|
    ensures (all + tail)[..n] == whole + left && |left| == n - |whole|
  {
    left := (rest + tail)[..n - |whole|];
    Assoc(whole, rest, tail);
    TakeConcat(whole, rest + tail, n);
  }

  lemma CutReadsOrFails(c: WalCodec, checks: bool, log: seq<Record>, tail: seq<byte>, n: nat, left: seq<byte>)
    requires WalCodecOk(c) && AllShort(c, log) && |tail| < 4 && n <= |Frames(c, checks, log)| + |tail|
    requires (Frames(c, checks, log) + tail)[..n] == Frames(c, checks, log[..WholeFrames(c, checks, log, n)]) + left
    requires |left| == TornBytes(c, checks, log, n)
    ensures ParseAll(c, checks, (Frames(c, checks, log) + tail)[..n])
         == Parse(log[..WholeFrames(c, checks, log, n)], |left| < 4)
  {
    if n <= |Frames(c, checks, log)| {
      CutReads(c, checks, log, n);
      assert (Frames(c, checks, log) + tail)[..n] == Frames(c, checks, log)[..n];
    } else {
      WholeFramesFit(c, checks, log, n);
      AllWhole(c, checks, log, n);
      LogReadsBack(c, checks, log, left);
      BeforeBefore(log, [], Parse([], true));
    }
  }

  lemma AllWhole(c: WalCodec, checks: bool, log: seq<Record>, n: nat)
    requires n >= |Frames(c, checks, log)|
    ensures WholeFrames(c, checks, log, n) == |log| && log[..|log|] == log
  {
    var k := WholeFrames(c, checks, log, n);
    WholeFramesFit(c, checks, log, n);
    assert log[..|log|] == log;
    FramesOfPrefix(c, checks, log, if k < |log| then k + 1 else k, |log|);
  }

  /**
   A file cut at any byte behind its header reads as its whole frames, or fails if four bytes or more
   are left over.
   */
  lemma CutFileReads(c: WalCodec, checks: bool, file: seq<byte>, log: seq<Record>, tail: seq<byte>, n: nat)
    returns (left: seq<byte>)
    requires WalCodecOk(c) && HoldsLog(c, checks, file, log, tail) && n <= |file| - HEADER_SIZE
    ensures var file', k := file[..HEADER_SIZE + n], WholeFrames(c, checks, log, n);
            && ParsesAs(c, checks, file', Parse(log[..k], TornBytes(c, checks, log, n) < 4))
            && (TornBytes(c, checks, log, n) < 4 ==> HoldsLog(c, checks, file', log[..k], left))
  {
    left := CutLeaves(c, checks, log, tail, n);
    CutReadsOrFails(c, checks, log, tail, n, left);
    CutFileParses(c, checks, file, n, log[..WholeFrames(c, checks, log, n)], left);
    ShortPrefix(c, log, WholeFrames(c, checks, log, n));
  }

  lemma CutFileParses(c: WalCodec, checks: bool, file: seq<byte>, n: nat, whole: seq<Record>, left: seq<byte>)
    requires HEADER_SIZE + n <= |file| && OpenHeader(file) == Ok(checks)
    requires file[HEADER_SIZE..][..n] == Frames(c, checks, whole) + left
    requires ParseAll(c, checks, file[HEADER_SIZE..][..n]) == Parse(whole, |left| < 4)
    ensures ParsesAs(c, checks, file[..HEADER_SIZE + n], Parse(whole, |left| < 4))
    ensures file[..HEADER_SIZE + n][HEADER_SIZE..] == Frames(c, checks, whole) + left
  {
    HeaderOfCut(file, HEADER_SIZE + n);
    BodyOfCut(file, HEADER_SIZE + n);
  }

  lemma ShortPrefix(c: WalCodec, log: seq<Record>, k: nat)
    requires k <= |log| && AllShort(c, log)
    ensures AllShort(c, log[..k])
  {}

  /** The first bytes of a frame behind a whole log. */
  lemma TornLength(c: WalCodec, checks: bool, file: seq<byte>, log: seq<Record>, more: seq<Record>, j: nat)
    returns (tail: seq<byte>)
    requires HoldsLog(c, checks, file, log, []) && more != [] && j < 4
    ensures |tail| == j
    ensures var n, file' := |Frames(c, checks, log)| + j, file + Frames(c, checks, more);
            HEADER_SIZE + n <= |file'| && HoldsLog(c, checks, file'[..HEADER_SIZE + n], log, tail)
  {
    var frames := Frames(c, checks, more);
    var n := HEADER_SIZE + |Frames(c, checks, log)| + j;
    assert |Framed(c, checks, more[0])| >= 4;
    tail := frames[..j];
    HeaderOfAppend(file, frames);
    HeaderOfCut(file + frames, n);
    NoBytesBehind(file[HEADER_SIZE..], Frames(c, checks, log));
    CutBehindBody(file, Frames(c, checks, log), frames, j);
  }

  lemma NoBytesBehind(body: seq<byte>, a: seq<byte>)
    requires body == a + []
    ensures body == a
  {}

  lemma CutBehindBody(file: seq<byte>, body: seq<byte>, more: seq<byte>, j: nat)
    requires |file| >= HEADER_SIZE && file[HEADER_SIZE..] == body && j <= |more|
    ensures (file + more)[..HEADER_SIZE + |body| + j][HEADER_SIZE..] == body + more[..j]
  {}

  class WalWriter {
    var file: seq<byte>
    const enableChecksums: bool
    var nextLsn: nat

    /** A missing file gets a header; an existing one is taken as it is. */
    constructor (c: WalCodec, existing: Option<seq<byte>>, databaseId: seq<byte>, enableChecksums: bool)
      requires |databaseId| == 16
      ensures this.enableChecksums == enableChecksums && nextLsn == 1
      ensures existing.Some? ==> file == existing.value
      ensures existing.None? ==> IsLog(c, file, enableChecksums, [])
      ensures existing.None? ==> file == MAGIC + [1, 0, 0, 0] + databaseId + [if enableChecksums then 1 else 0]
    {
      LowByteFirst(WAL_VERSION);
      file := if existing.Some? then existing.value else HeaderBytes(databaseId, enableChecksums);
      this.enableChecksums := enableChecksums;
      nextLsn := 1;
      new;
      HeaderOpens(databaseId, enableChecksums, []);
      assert HeaderBytes(databaseId, enableChecksums) + [] == HeaderBytes(databaseId, enableChecksums);
    }

    method NextLsn() returns (lsn: nat)
      modifies this`nextLsn
      ensures lsn == old(nextLsn) && nextLsn == old(nextLsn) + 1
    {
      lsn := nextLsn;
      nextLsn := nextLsn + 1;
    }

    method Append(c: WalCodec, r: Record, ghost records: seq<Record>) returns (lsn: nat)
      modifies this`file
      ensures lsn == r.lsn && file == old(file) + Framed(c, enableChecksums, r)
      ensures IsLog(c, old(file), enableChecksums, records) && Short(c, r)
          ==> IsLog(c, file, enableChecksums, records + [r])
      ensures var data := c.enc(r);
              file == old(file) + (ToLe32(|data|) + data + if enableChecksums then ToLe32(c.crc(data)) else [])
    {
      if IsLog(c, file, enableChecksums, records) && Short(c, r) {
        AppendKeepsLog(c, file, enableChecksums, records, r);
      }
      var serialized := c.enc(r);
      file := file + ToLe32(|serialized|);
      file := file + serialized;
      if enableChecksums {
        file := file + ToLe32(c.crc(serialized));
      }
      assert file == old(file) + Framed(c, enableChecksums, r);
      lsn := r.lsn;
    }

    /** Keeps the header only; a file shorter than a header is filled up with zeros. */
    method Truncate(ghost c: WalCodec)
      modifies this`file, this`nextLsn
      ensures |file| == HEADER_SIZE && nextLsn == 1
      ensures |old(file)| >= HEADER_SIZE ==> file == old(file)[..HEADER_SIZE]
      ensures OpenHeader(old(file)) == Ok(enableChecksums) ==> IsLog(c, file, enableChecksums, [])
    {
      file := if |file| >= HEADER_SIZE then file[..HEADER_SIZE] else file + seq(HEADER_SIZE - |file|, _ => 0);
      nextLsn := 1;
      if |old(file)| >= HEADER_SIZE {
        assert file[..8] == old(file)[..8] && file[8..12] == old(file)[8..12];
      }
    }
  }

  // ------------------------------------------------------------------ reading

  class WalReader {
    const file: seq<byte>
    const enableChecksums: bool
    var position: nat

    constructor (file: seq<byte>, enableChecksums: bool)
      requires |file| >= HEADER_SIZE
      ensures this.file == file && this.enableChecksums == enableChecksums && Valid()
      ensures Rest() == file[HEADER_SIZE..]
    {
      this.file := file;
      this.enableChecksums := enableChecksums;
      position := HEADER_SIZE;
    }

    ghost predicate Valid()
      reads this
    {
      position <= |file|
    }

    /** The bytes not read yet. */
    function Rest(): seq<byte>
      reads this
      requires Valid()
    {
      file[position..]
    }

    /** Moves behind the record it returns; the end of the log and a bad frame move nothing. */
    method ReadRecord(c: WalCodec) returns (r: Result<Option<Record>>)
      requires Valid()
      modifies this
      ensures Valid()
      ensures match Next(c, enableChecksums, old(Rest()))
              case End => r == Ok(None)
              case Failed => r == Err(StorageError)
              case Got(record, size) => r == Ok(Some(record)) && Rest() == old(Rest())[size..]
      ensures r.Ok? && r.value.Some? ==>
                var bytes := old(Rest());
                && |bytes| >= 4
                && var len := FromLe32(bytes[..4]);
                   && |bytes| >= 4 + len && c.dec(bytes[4..4 + len]) == Ok(r.value.value)
                   && (enableChecksums ==>
                         |bytes| >= 8 + len && FromLe32(bytes[4 + len..8 + len]) == c.crc(bytes[4..4 + len]))
                   && position == old(position) + 4 + len + if enableChecksums then 4 else 0
      ensures !(r.Ok? && r.value.Some?) ==> position == old(position)
    {
      var bytes := Rest();
      if |bytes| < 4 {
        return Ok(None);
      }
      var len := FromLe32(bytes[..4]);
      if |bytes| < 4 + len {
        return Err(StorageError);
      }
      var data := bytes[4..4 + len];
      var at := 4 + len;
      if enableChecksums {
        if |bytes| < at + 4 {
          return Err(StorageError);
        }
        var expected := FromLe32(bytes[at..at + 4]);
        at := at + 4;
        if expected != c.crc(data) {
          return Err(StorageError);
        }
      }
      var record := c.dec(data);
      if record.Err? {
        return Err(StorageError);
      }
      position := position + at;
      assert Rest() == bytes[at..];
      r := Ok(Some(record.value));
    }

    method ReadAll(c: WalCodec) returns (r: Result<seq<Record>>)
      requires Valid()
      modifies this
      ensures Valid()
      ensures var p := ParseAll(c, enableChecksums, old(Rest()));
              r == if p.ok then Ok(p.records) else Err(StorageError)
    {
      var records := [];
      while true
        invariant Valid()
        invariant ParseAll(c, enableChecksums, old(Rest())) == Before(records, ParseAll(c, enableChecksums, Rest()))
        decreases |Rest()|
      {
        var one := ReadRecord(c);
        if one.Err? {
          return Err(one.error);
        }
        if one.value.None? {
          BeforeBefore(records, [], Parse([], true));
          return Ok(records);
        }
        BeforeBefore(records, [one.value.value], ParseAll(c, enableChecksums, Rest()));
        records := records + [one.value.value];
      }
    }
  }

  // ------------------------------------------------------------------ committed records

  /** The transactions a log commits. */
  function CommittedOf(records: seq<Record>): (s: set<nat>)
    ensures forall tx ::
              tx in s <==> exists i :: 0 <= i < |records| && records[i].kind == Commit && records[i].txId == tx
  {
    if records == [] then {}
    else
      var front, last := records[..|records| - 1], records[|records| - 1];
      CommittedOf(front) + if last.kind == Commit then {last.txId} else {}
  }

  function Select(records: seq<Record>, committed: set<nat>): seq<Record> {
    if records == [] then []
    else
      var front, last := records[..|records| - 1], records[|records| - 1];
      Select(front, committed) + if last.txId in committed then [last] else []
  }

  /** These records of the log, in its order: those whose transaction some record of the log commits. */
  ghost predicate SelectsCommitted(log: seq<Record>, records: seq<Record>, at: seq<nat>) {
    && Picks(log, records, at)
    && forall k: nat :: k < |log| ==>
         (k in at <==> exists c :: 0 <= c < |log| && log[c].kind == Commit && log[c].txId == log[k].txId)
  }

  lemma {:induction false} SelectPicks(log: seq<Record>, committed: set<nat>) returns (at: seq<nat>)
    ensures Picks(log, Select(log, committed), at)
    ensures forall k: nat :: k < |log| ==> (k in at <==> log[k].txId in committed)
  {
    at := [];
    if log != [] {
      var front, last := log[..|log| - 1], log[|log| - 1];
      at := SelectPicks(front, committed);
      PicksSnoc(front, last, Select(front, committed), at);
      assert front + [last] == log;
      if last.txId in committed { at := at + [|front|]; }
    }
  }

  lemma AppliedAreCommitted(log: seq<Record>) returns (at: seq<nat>)
    ensures SelectsCommitted(log, ToApply(log), at)
  {
    at := SelectPicks(log, CommittedOf(log));
  }

  /** The records that replay applies: all records of transactions that some record of the log commits. */
  function ToApply(records: seq<Record>): seq<Record> { Select(records, CommittedOf(records)) }

  // ------------------------------------------------------------------ what the log contributes

  predicate IsData(r: Record) { r.payload.TableRows? || r.payload.RelEdge? }

  function Fold<T>(apply: (T, Record) -> T, t: T, records: seq<Record>): T {
    if records == [] then t else apply(Fold(apply, t, records[..|records| - 1]), records[|records| - 1])
  }

  /** Records that carry no data change nothing. */
  ghost predicate Inert<T(!new)>(apply: (T, Record) -> T) { forall t, r :: !IsData(r) ==> apply(t, r) == t }

  /** Some data record of this transaction is in the log, but no commit of it. */
  ghost predicate Torn(log: seq<Record>, tx: nat) {
    tx !in CommittedOf(log) && exists r :: r in log && r.txId == tx && IsData(r)
  }

  lemma FoldSnoc<T>(apply: (T, Record) -> T, t: T, records: seq<Record>, r: Record)
    ensures Fold(apply, t, records + [r]) == apply(Fold(apply, t, records), r)
  {
    assert (records + [r])[..|records|] == records;
  }

  lemma SelectSnoc<T>(apply: (T, Record) -> T, t: T, log: seq<Record>, r: Record, committed: set<nat>)
    ensures Fold(apply, t, Select(log + [r], committed))
         == if r.txId in committed then apply(Fold(apply, t, Select(log, committed)), r)
              else Fold(apply, t, Select(log, committed))
  {
    assert (log + [r])[..|log|] == log;
    var before := Select(log, committed);
    assert before + [] == before;
    FoldSnoc(apply, t, before, r);
  }

  lemma CommittedSnoc(log: seq<Record>, r: Record)
    ensures CommittedOf(log + [r]) == if r.kind == Commit then CommittedOf(log) + {r.txId} else CommittedOf(log)
  {
    assert (log + [r])[..|log|] == log;
  }

  /** One more committed transaction whose data is not in the log changes nothing. */
  lemma {:induction false} CommitOneMore<T(!new)>(apply: (T, Record) -> T, t: T, log: seq<Record>,
                                           committed: set<nat>, tx: nat)
    requires Inert(apply)
    requires tx in committed || forall r :: r in log && r.txId == tx ==> !IsData(r)
    ensures Fold(apply, t, Select(log, committed + {tx})) == Fold(apply, t, Select(log, committed))
  {
    if tx in committed {
      assert committed + {tx} == committed;
    } else if log != [] {
      var front, last := log[..|log| - 1], log[|log| - 1];
      assert log == front + [last];
      CommitOneMore(apply, t, front, committed, tx);
      SelectSnoc(apply, t, front, last, committed);
      SelectSnoc(apply, t, front, last, committed + {tx});
    }
  }

  /** A record at the end that does not commit is applied exactly if its transaction is already committed. */
  lemma ApplySnoc<T>(apply: (T, Record) -> T, t: T, log: seq<Record>, r: Record)
    requires r.kind != Commit
    ensures Fold(apply, t, ToApply(log + [r]))
         == if r.txId in CommittedOf(log) then apply(Fold(apply, t, ToApply(log)), r) else Fold(apply, t, ToApply(log))
  {
    CommittedSnoc(log, r);
    SelectSnoc(apply, t, log, r, CommittedOf(log));
  }

  /** A whole transaction at the end is applied last, after every record of its id that has waited for a commit. */
  lemma TransactionCommits<T(!new)>(apply: (T, Record) -> T, t: T, log: seq<Record>, b: Record, d: Record, e: Record)
    requires Inert(apply) && b.kind == BeginTransaction && d.kind != Commit && e.kind == Commit
    requires !IsData(b) && !IsData(e) && b.txId == d.txId == e.txId
    ensures Fold(apply, t, ToApply(log + [b, d, e]))
         == apply(Fold(apply, t, Select(log, CommittedOf(log) + {d.txId})), d)
  {
    CommittedSnoc(log, b);
    CommittedSnoc(log + [b], d);
    CommittedSnoc(log + [b] + [d], e);
    assert log + [b] + [d] + [e] == log + [b, d, e];
    ThreeRecords(apply, t, log, b, d, e, CommittedOf(log) + {d.txId});
  }

  /** A whole transaction at the end is applied last, unless its commit also commits torn records before it. */
  lemma ApplyTransaction<T(!new)>(apply: (T, Record) -> T, t: T, log: seq<Record>, b: Record, d: Record, e: Record)
    requires Inert(apply) && b.kind == BeginTransaction && d.kind != Commit && e.kind == Commit
    requires !IsData(b) && !IsData(e) && b.txId == d.txId == e.txId && !Torn(log, d.txId)
    ensures Fold(apply, t, ToApply(log + [b, d, e])) == apply(Fold(apply, t, ToApply(log)), d)
  {
    TransactionCommits(apply, t, log, b, d, e);
    CommitOneMore(apply, t, log, CommittedOf(log), d.txId);
  }

  /** A transaction cut short counts exactly if its data is there and its id was committed before. */
  lemma PartApplies<T(!new)>(apply: (T, Record) -> T, t: T, log: seq<Record>, b: Record, d: Record, e: Record, j: nat,
                      cut: seq<Record>)
    requires Inert(apply) && b.kind == BeginTransaction && d.kind != Commit && e.kind == Commit
    requires !IsData(b) && !IsData(e) && b.txId == d.txId == e.txId && !Torn(log, d.txId)
    requires j <= 3 && cut == log + [b, d, e][..j]
    ensures Fold(apply, t, ToApply(cut))
         == if j == 3 || (j == 2 && d.txId in CommittedOf(log)) then apply(Fold(apply, t, ToApply(log)), d)
            else Fold(apply, t, ToApply(log))
  {
    if j == 0 {
      assert cut == log;
    } else if j == 1 {
      assert cut == log + [b];
      OneRecord(apply, t, log, b);
    } else if j == 2 {
      assert cut == log + [b] + [d];
      TwoRecords(apply, t, log, b, d);
    } else {
      assert cut == log + [b, d, e];
      ApplyTransaction(apply, t, log, b, d, e);
    }
  }

  lemma OneRecord<T(!new)>(apply: (T, Record) -> T, t: T, log: seq<Record>, b: Record)
    requires Inert(apply) && b.kind != Commit && !IsData(b)
    ensures Fold(apply, t, ToApply(log + [b])) == Fold(apply, t, ToApply(log))
  {
    ApplySnoc(apply, t, log, b);
  }

  lemma TwoRecords<T(!new)>(apply: (T, Record) -> T, t: T, log: seq<Record>, b: Record, d: Record)
    requires Inert(apply) && b.kind != Commit && !IsData(b) && d.kind != Commit
    ensures Fold(apply, t, ToApply(log + [b] + [d]))
         == if d.txId in CommittedOf(log) then apply(Fold(apply, t, ToApply(log)), d) else Fold(apply, t, ToApply(log))
  {
    OneRecord(apply, t, log, b);
    CommittedSnoc(log, b);
    ApplySnoc(apply, t, log + [b], d);
  }

  /** Torn data comes back when a later transaction with the same id commits. */
  lemma TornCommits<T(!new)>(apply: (T, Record) -> T, t: T, log: seq<Record>, b: Record, d: Record, b': Record,
                      d': Record, e': Record)
    requires Inert(apply) && b.kind == b'.kind == BeginTransaction && d.kind != Commit && d'.kind != Commit
          && e'.kind == Commit
    requires !IsData(b) && !IsData(b') && !IsData(e') && b.txId == d.txId == b'.txId == d'.txId == e'.txId
    requires d.txId !in CommittedOf(log) && !Torn(log, d.txId)
    ensures Fold(apply, t, ToApply(log + [b] + [d] + [b'] + [d'] + [e']))
         == apply(apply(Fold(apply, t, ToApply(log)), d), d')
  {
    var torn := log + [b] + [d];
    CommittedSnoc(log, b);
    CommittedSnoc(log + [b], d);
    CommittedSnoc(torn, b');
    CommittedSnoc(torn + [b'], d');
    CommittedSnoc(torn + [b'] + [d'], e');
    var committed := CommittedOf(log) + {d.txId};
    ThreeRecords(apply, t, torn, b', d', e', committed);
    SelectSnoc(apply, t, log + [b], d, committed);
    SelectSnoc(apply, t, log, b, committed);
    CommitOneMore(apply, t, log, CommittedOf(log), d.txId);
  }

  lemma ThreeRecords<T(!new)>(apply: (T, Record) -> T, t: T, log: seq<Record>, b: Record, d: Record, e: Record,
                       committed: set<nat>)
    requires Inert(apply) && !IsData(b) && !IsData(e) && b.txId == d.txId == e.txId && d.txId in committed
    ensures Fold(apply, t, Select(log + [b] + [d] + [e], committed)) == apply(Fold(apply, t, Select(log, committed)), d)
  {
    SelectSnoc(apply, t, log, b, committed);
    SelectSnoc(apply, t, log + [b], d, committed);
    SelectSnoc(apply, t, log + [b] + [d], e, committed);
  }

  class WalReplayer {
    var activeTxs: set<nat>
    var committedTxs: set<nat>
    var committedRecords: seq<Record>

    constructor ()
      ensures Valid() && committedRecords == []
    {
      activeTxs := {};
      committedTxs := {};
      committedRecords := [];
    }

    ghost predicate Valid()
      reads this
    {
      committedTxs == CommittedOf(committedRecords)
    }

    /** Keeps every record, and which transactions they commit. */
    method Analyze(c: WalCodec, reader: WalReader) returns (r: Result<()>)
      requires Valid() && reader.Valid()
      modifies this, reader
      ensures Valid() && reader.Valid()
      ensures var p := ParseAll(c, reader.enableChecksums, old(reader.Rest()));
              r == (if p.ok then Ok(()) else Err(StorageError)) && committedRecords == old(committedRecords) + p.records
    {
      while true
        invariant Valid() && reader.Valid()
        invariant Before(old(committedRecords), ParseAll(c, reader.enableChecksums, old(reader.Rest())))
               == Before(committedRecords, ParseAll(c, reader.enableChecksums, reader.Rest()))
        decreases |reader.Rest()|
      {
        var one := reader.ReadRecord(c);
        if one.Err? {
          BeforeBefore(committedRecords, [], Parse([], false));
          return Err(one.error);
        }
        if one.value.None? {
          BeforeBefore(committedRecords, [], Parse([], true));
          return Ok(());
        }
        var record := one.value.value;
        BeforeBefore(committedRecords, [record], ParseAll(c, reader.enableChecksums, reader.Rest()));
        match record.kind {
          case BeginTransaction =>
            activeTxs := activeTxs + {record.txId};
          case Commit =>
            activeTxs := activeTxs - {record.txId};
            committedTxs := committedTxs + {record.txId};
          case Abort =>
            activeTxs := activeTxs - {record.txId};
          case _ =>
        }
        assert (committedRecords + [record])[..|committedRecords|] == committedRecords;
        committedRecords := committedRecords + [record];
      }
    }

    method RecordsToApply() returns (records: seq<Record>)
      requires Valid()
      ensures records == ToApply(committedRecords)
      ensures exists at :: SelectsCommitted(committedRecords, records, at)
    {
      records := [];
      for i := 0 to |committedRecords|
        invariant records == Select(committedRecords[..i], committedTxs)
      {
        assert committedRecords[..i + 1][..i] == committedRecords[..i];
        if committedRecords[i].txId in committedTxs {
          records := records + [committedRecords[i]];
        }
      }
      assert committedRecords[..|committedRecords|] == committedRecords;
      ghost var at := AppliedAreCommitted(committedRecords);
    }
  }
}
