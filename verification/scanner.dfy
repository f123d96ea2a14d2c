/** The index build: one pass over the archive's lines that cuts it into
    messages at `From ` lines, records each message's byte extent and header
    fields, and writes the records in batches. */
module Scanner {
  import opened Common
  import opened HeaderCut
  import opened Batching
  import Timestamp

  /** One line of the archive as the file iterator yields it, newline included. */
  type Line = seq<byte>

  /** `b"From "`, the prefix that opens a message. */
  const FromMarker: seq<byte> := [70, 114, 111, 109, 32]

  predicate IsFromLine(line: Line)
  {
    FromMarker <= line
  }

  /** The header fields the parser extracts from a header block: the raw
      `Date` text, the instant it names converted to UTC (absent when the
      date does not parse), and the decoded `From` and `Subject`. */
  datatype Fields = Fields(date: string, utc: Option<Timestamp.UtcTime>, sender: string, subject: string)

  /** One row of the `emails` table (without the key the database assigns). */
  datatype Record = Record(
    offset: nat,
    size: nat,
    date: Option<string>,
    dateUtc: Option<string>,
    sender: string,
    subject: string)

  /** Header parsing (`email.message_from_bytes`, `decode_header`,
      `parse_date`, the conversion to UTC) is outside the model: it is any
      function of the header block, and `None` stands for an exception. */
  type HeaderParser = seq<byte> -> Option<Fields>

  /** Reference cut of the archive into messages, one line at a time: a line
      opens a new message when it starts with `From ` and some line came
      before it; otherwise it joins the current message. */
  function Split(lines: seq<Line>): (groups: seq<seq<Line>>)
    ensures |groups| == 0 <==> |lines| == 0
    decreases |lines|
  {
    if |lines| == 0 then []
    else
      var init := Split(lines[..|lines| - 1]);
      var line := lines[|lines| - 1];
      if |init| == 0 then [[line]]
      else if IsFromLine(line) then init + [[line]]
      else init[..|init| - 1] + [init[|init| - 1] + [line]]
  }

  /** No message is empty. */
  ghost predicate NonEmptyParts(groups: seq<seq<Line>>)
  {
    forall k :: 0 <= k < |groups| ==> |groups[k]| > 0
  }

  /** Every message after the first opens with a `From ` line. */
  ghost predicate LaterPartsOpenWithFrom(groups: seq<seq<Line>>)
  {
    forall k :: 0 < k < |groups| && |groups[k]| > 0 ==> IsFromLine(groups[k][0])
  }

  /** No `From ` line sits anywhere but at the head of a message. */
  ghost predicate NoInnerFrom(groups: seq<seq<Line>>)
  {
    forall k, j :: 0 <= k < |groups| && 0 < j < |groups[k]| ==> !IsFromLine(groups[k][j])
  }

  /** What a cut into messages must satisfy: the messages laid end to end
      are the archive, none is empty, each one after the first opens with a
      `From ` line, and no `From ` line sits inside a message. */
  ghost predicate ValidSplit(lines: seq<Line>, groups: seq<seq<Line>>)
  {
    && Concat(groups) == lines
    && NonEmptyParts(groups)
    && LaterPartsOpenWithFrom(groups)
    && NoInnerFrom(groups)
  }

  /** Opening a new message keeps a cut valid when the new line is a `From ` line. */
  lemma OpenPreservesValid(lines: seq<Line>, groups: seq<seq<Line>>, line: Line)
    requires ValidSplit(lines, groups)
    requires |groups| == 0 || IsFromLine(line)
    ensures ValidSplit(lines + [line], groups + [[line]])
  {
    ConcatSnoc(groups, [line]);
    var gs := groups + [[line]];
    assert forall k :: 0 <= k < |groups| ==> gs[k] == groups[k];
  }

  /** Extending the last message keeps a cut valid when the new line is not a `From ` line. */
  lemma ExtendPreservesValid(lines: seq<Line>, groups: seq<seq<Line>>, line: Line)
    requires ValidSplit(lines, groups)
    requires |groups| > 0 && !IsFromLine(line)
    ensures ValidSplit(lines + [line], groups[..|groups| - 1] + [groups[|groups| - 1] + [line]])
  {
    var m := |groups| - 1;
    var gs := groups[..m] + [groups[m] + [line]];
    assert groups == groups[..m] + [groups[m]];
    ConcatSnoc(groups[..m], groups[m]);
    ConcatSnoc(groups[..m], groups[m] + [line]);
    assert forall k :: 0 <= k < m ==> gs[k] == groups[k];
    assert NonEmptyParts(gs);
    assert LaterPartsOpenWithFrom(gs) by {
      forall k | 0 < k < |gs| && |gs[k]| > 0
        ensures IsFromLine(gs[k][0])
      {
        if k == m {
          assert gs[k][0] == groups[m][0];
        }
      }
    }
    assert NoInnerFrom(gs) by {
      forall k, j | 0 <= k < |gs| && 0 < j < |gs[k]|
        ensures !IsFromLine(gs[k][j])
      {
        if k == m && j < |groups[m]| {
          assert gs[k][j] == groups[m][j];
        }
      }
    }
  }

  lemma {:induction false} SplitValid(lines: seq<Line>)
    ensures ValidSplit(lines, Split(lines))
    decreases |lines|
  {
    if |lines| > 0 {
      var n := |lines|;
      var prefix := lines[..n - 1];
      var line := lines[n - 1];
      var init := Split(prefix);
      SplitValid(prefix);
      assert lines == prefix + [line];
      if |init| == 0 || IsFromLine(line) {
        OpenPreservesValid(prefix, init, line);
      } else {
        ExtendPreservesValid(prefix, init, line);
      }
    }
  }

  /** Dropping a last message of one line leaves a valid cut of the rest. */
  lemma DropSingletonValid(lines: seq<Line>, groups: seq<seq<Line>>)
    requires ValidSplit(lines, groups)
    requires |groups| > 0 && |groups[|groups| - 1]| == 1
    ensures |lines| > 0
    ensures lines[|lines| - 1] == groups[|groups| - 1][0]
    ensures ValidSplit(lines[..|lines| - 1], groups[..|groups| - 1])
  {
    var m := |groups| - 1;
    var rest := groups[..m];
    assert groups == rest + [groups[m]];
    ConcatSnoc(rest, groups[m]);
    assert forall k :: 0 <= k < m ==> rest[k] == groups[k];
    assert lines[..|lines| - 1] == Concat(rest);
  }

  /** Dropping the last line of a longer last message leaves a valid cut of the rest. */
  lemma DropLastLineValid(lines: seq<Line>, groups: seq<seq<Line>>)
    requires ValidSplit(lines, groups)
    requires |groups| > 0 && |groups[|groups| - 1]| > 1
    ensures |lines| > 0
    ensures lines[|lines| - 1] == groups[|groups| - 1][|groups[|groups| - 1]| - 1]
    ensures !IsFromLine(lines[|lines| - 1])
    ensures ValidSplit(lines[..|lines| - 1],
      groups[..|groups| - 1] + [groups[|groups| - 1][..|groups[|groups| - 1]| - 1]])
  {
    var m := |groups| - 1;
    var rest := groups[..m];
    var g := groups[m];
    var g' := g[..|g| - 1];
    var groups' := rest + [g'];
    assert groups == rest + [g];
    assert g == g' + [g[|g| - 1]];
    ConcatSnoc(rest, g);
    ConcatSnoc(rest, g');
    assert forall k :: 0 <= k < m ==> groups'[k] == groups[k];
    assert forall j :: 0 <= j < |g'| ==> g'[j] == g[j];
    assert lines[..|lines| - 1] == Concat(groups');
    assert NonEmptyParts(groups');
    assert LaterPartsOpenWithFrom(groups');
    assert NoInnerFrom(groups');
  }

  /** One step of the reference cut, in the terms the scanning loop keeps:
      the finished messages `done` and the open message `buf`. */
  lemma SplitStep(lines: seq<Line>, i: nat, done: seq<seq<Line>>, buf: seq<Line>)
    requires i < |lines|
    requires i == 0 ==> done == [] && buf == []
    requires i > 0 ==> Split(lines[..i]) == done + [buf] && |buf| > 0
    ensures IsFromLine(lines[i]) && |buf| > 0 ==> Split(lines[..i + 1]) == (done + [buf]) + [[lines[i]]]
    ensures !(IsFromLine(lines[i]) && |buf| > 0) ==> Split(lines[..i + 1]) == done + [buf + [lines[i]]]
  {
    var prefix := lines[..i + 1];
    assert prefix[..|prefix| - 1] == lines[..i];
    assert prefix[|prefix| - 1] == lines[i];
    if i == 0 {
      assert Split(prefix[..0]) == [];
      assert buf + [lines[i]] == [lines[i]];
    } else {
      var init := done + [buf];
      assert init[..|init| - 1] == done;
      assert init[|init| - 1] == buf;
    }
  }

  /** Closing step of `SplitUnique` when the last message is one line. */
  lemma UniqueLastSingleton(lines: seq<Line>, groups: seq<seq<Line>>)
    requires |lines| > 0 && |groups| > 0
    requires groups[|groups| - 1] == [lines[|lines| - 1]]
    requires Split(lines[..|lines| - 1]) == groups[..|groups| - 1]
    requires |groups| > 1 ==> IsFromLine(lines[|lines| - 1])
    ensures groups == Split(lines)
  {
    LastSplit(groups);
  }

  /** Closing step of `SplitUnique` when the last message is longer. */
  lemma UniqueLastLonger(lines: seq<Line>, groups: seq<seq<Line>>)
    requires |lines| > 0 && |groups| > 0 && |groups[|groups| - 1]| > 1
    requires groups[|groups| - 1][|groups[|groups| - 1]| - 1] == lines[|lines| - 1]
    requires !IsFromLine(lines[|lines| - 1])
    requires Split(lines[..|lines| - 1])
      == groups[..|groups| - 1] + [groups[|groups| - 1][..|groups[|groups| - 1]| - 1]]
    ensures groups == Split(lines)
  {
    var m := |groups| - 1;
    var g := groups[m];
    var g' := g[..|g| - 1];
    var init := groups[..m] + [g'];
    assert init[..|init| - 1] == groups[..m];
    assert init[|init| - 1] == g';
    LastSplit(g);
    LastSplit(groups);
  }

  /** Only one cut satisfies `ValidSplit`: the reference cut. */
  lemma {:induction false} SplitUnique(lines: seq<Line>, groups: seq<seq<Line>>)
    requires ValidSplit(lines, groups)
    ensures groups == Split(lines)
    decreases |lines|
  {
    if |groups| == 0 {
      assert lines == [];
    } else {
      var m := |groups| - 1;
      var g := groups[m];
      var n := |lines|;
      if |g| == 1 {
        DropSingletonValid(lines, groups);
        SplitUnique(lines[..n - 1], groups[..m]);
        if m > 0 {
          assert IsFromLine(g[0]);
        }
        UniqueLastSingleton(lines, groups);
      } else {
        DropLastLineValid(lines, groups);
        SplitUnique(lines[..n - 1], groups[..m] + [g[..|g| - 1]]);
        UniqueLastLonger(lines, groups);
      }
    }
  }

  /** The raw bytes of each message: `b"".join(buf)`. */
  function Raws(groups: seq<seq<Line>>): (raws: seq<seq<byte>>)
    ensures |raws| == |groups|
    ensures forall k :: 0 <= k < |groups| ==> raws[k] == Concat(groups[k])
  {
    seq(|groups|, k requires 0 <= k < |groups| => Concat(groups[k]))
  }

  /** The record written for one message found at `offset`; the parser only
      ever sees the header block, a parsed date is stored as its
      `%Y-%m-%d %H:%M:%S` text, and a parse failure still yields a record.
      A stored `date_utc` text always reads back as the parsed instant. */
  function MakeRecord(offset: nat, raw: seq<byte>, parse: HeaderParser): (r: Record)
    ensures r.offset == offset && r.size == |raw|
    ensures parse(HeaderBlock(raw)).None? ==>
      r.date.None? && r.dateUtc.None? && r.sender == "" && r.subject == ""
    ensures parse(HeaderBlock(raw)).Some? ==>
      && r.date == Some(parse(HeaderBlock(raw)).value.date)
      && (r.dateUtc.Some? <==> parse(HeaderBlock(raw)).value.utc.Some?)
      && r.sender == parse(HeaderBlock(raw)).value.sender
      && r.subject == parse(HeaderBlock(raw)).value.subject
    ensures r.dateUtc.Some? ==>
      Timestamp.ParseUtc(r.dateUtc.value) == Some(parse(HeaderBlock(raw)).value.utc.value)
  {
    match parse(HeaderBlock(raw))
    case Some(f) => Record(offset, |raw|, Some(f.date), UtcText(f.utc), f.sender, f.subject)
    case None => Record(offset, |raw|, None, None, "", "")
  }

  /** The `date_utc` text of a parsed instant. */
  function UtcText(t: Option<Timestamp.UtcTime>): (text: Option<string>)
    ensures text.Some? <==> t.Some?
    ensures text.Some? ==> Timestamp.ParseUtc(text.value) == Some(t.value)
  {
    if t.Some? then
      Timestamp.ParseFormat(t.value);
      Some(Timestamp.Format(t.value))
    else None
  }

  /** One record per message, each at the offset where the earlier messages end. */
  function IndexRecords(raws: seq<seq<byte>>, parse: HeaderParser): (recs: seq<Record>)
    ensures |recs| == |raws|
  {
    seq(|raws|, k requires 0 <= k < |raws| => MakeRecord(|Concat(raws[..k])|, raws[k], parse))
  }

  /** The records the index build writes for an archive. */
  function Index(lines: seq<Line>, parse: HeaderParser): seq<Record>
  {
    IndexRecords(Raws(Split(lines)), parse)
  }

  /** Closing the open message `buf` appends exactly one record, placed
      where the earlier messages end, and moves that end past `buf`. */
  lemma CloseMessage(done: seq<seq<Line>>, buf: seq<Line>, parse: HeaderParser)
    ensures IndexRecords(Raws(done + [buf]), parse)
      == IndexRecords(Raws(done), parse) + [MakeRecord(|Concat(Raws(done))|, Concat(buf), parse)]
    ensures |Concat(Raws(done + [buf]))| == |Concat(Raws(done))| + |Concat(buf)|
  {
    var raws := Raws(done);
    assert Raws(done + [buf]) == raws + [Concat(buf)];
    ConcatSnoc(raws, Concat(buf));
    var rs := raws + [Concat(buf)];
    assert forall k :: 0 <= k < |raws| ==> rs[..k] == raws[..k];
    assert rs[..|raws|] == raws;
  }

  /** Appending the record of the closed message `buf` to the open batch
      keeps the batches an account of every closed message. */
  lemma RecordAppended(batches: seq<seq<Record>>, batch: seq<Record>, done: seq<seq<Line>>, buf: seq<Line>, parse: HeaderParser)
    requires Concat(batches) + batch == IndexRecords(Raws(done), parse)
    ensures Concat(batches) + (batch + [MakeRecord(|Concat(Raws(done))|, Concat(buf), parse)])
      == IndexRecords(Raws(done + [buf]), parse)
    ensures |Concat(Raws(done + [buf]))| == |Concat(Raws(done))| + |Concat(buf)|
  {
    CloseMessage(done, buf, parse);
  }

  /** Flushing a batch moves it from the open batch to the written ones. */
  lemma Flushed(batches: seq<seq<Record>>, batch: seq<Record>)
    ensures Concat(batches + [batch]) + [] == Concat(batches) + batch
  {
    ConcatSnoc(batches, batch);
  }

  /** `batch.append(...)` followed by the flush of a full batch. */
  method AddRecord(batches: seq<seq<Record>>, batch: seq<Record>, rec: Record)
    returns (batches': seq<seq<Record>>, batch': seq<Record>)
    requires forall k :: 0 <= k < |batches| ==> |batches[k]| == BatchSize
    requires |batch| < BatchSize
    ensures Concat(batches') + batch' == Concat(batches) + (batch + [rec])
    ensures forall k :: 0 <= k < |batches'| ==> |batches'[k]| == BatchSize
    ensures |batch'| < BatchSize
  {
    batches', batch' := batches, batch + [rec];
    if |batch'| >= BatchSize {
      Flushed(batches, batch');
      batches', batch' := batches + [batch'], [];
    }
  }

  /** What the line loop of `create_index` keeps after the first `i` lines:
      the messages closed so far are `done`, the open one is `buf` and starts
      at `msgOffset`, `offset` bytes have been read, and the records of the
      closed messages are the written batches followed by the open batch. */
  ghost predicate Scanned(lines: seq<Line>, i: nat, parse: HeaderParser,
                          batches: seq<seq<Record>>, batch: seq<Record>, count: nat,
                          buf: seq<Line>, msgOffset: nat, offset: nat, done: seq<seq<Line>>)
  {
    && i <= |lines|
    && (i == 0 ==> done == [] && buf == [])
    && (i > 0 ==> Split(lines[..i]) == done + [buf] && |buf| > 0)
    && offset == msgOffset + |Concat(buf)|
    && msgOffset == |Concat(Raws(done))|
    && count == |done|
    && Concat(batches) + batch == IndexRecords(Raws(done), parse)
    && (forall k :: 0 <= k < |batches| ==> |batches[k]| == BatchSize)
    && |batch| < BatchSize
  }

  /** One turn of the line loop: line `i` closes the open message when it
      starts with `From ` and a message is open, and then joins the open one. */
  method ScanLine(lines: seq<Line>, i: nat, parse: HeaderParser,
                  batches: seq<seq<Record>>, batch: seq<Record>, count: nat,
                  buf: seq<Line>, msgOffset: nat, offset: nat, ghost done: seq<seq<Line>>)
    returns (batches': seq<seq<Record>>, batch': seq<Record>, count': nat,
             buf': seq<Line>, msgOffset': nat, offset': nat, ghost done': seq<seq<Line>>)
    requires i < |lines|
    requires Scanned(lines, i, parse, batches, batch, count, buf, msgOffset, offset, done)
    ensures Scanned(lines, i + 1, parse, batches', batch', count', buf', msgOffset', offset', done')
  {
    var line := lines[i];
    SplitStep(lines, i, done, buf);
    batches', batch', count', buf', msgOffset', done' := batches, batch, count, buf, msgOffset, done;
    if IsFromLine(line) && |buf| > 0 {
      count' := count + 1;
      RecordAppended(batches, batch, done, buf, parse);
      batches', batch' := AddRecord(batches, batch, MakeRecord(msgOffset, Concat(buf), parse));
      done' := done + [buf];
      buf' := [];
      msgOffset' := offset;
      assert buf' + [line] == [line];
    }
    ConcatSnoc(buf', line);
    buf' := buf' + [line];
    offset' := offset + |line|;
  }

  /** The line loop of `create_index`, run over every line: every message
      closed by a later `From ` line has its record written or waiting in the
      open batch, and the last message is still open in `buf`. */
  method ScanLines(lines: seq<Line>, parse: HeaderParser)
    returns (batches: seq<seq<Record>>, batch: seq<Record>, count: nat, buf: seq<Line>, msgOffset: nat,
             offset: nat, ghost done: seq<seq<Line>>)
    ensures Scanned(lines, |lines|, parse, batches, batch, count, buf, msgOffset, offset, done)
    ensures forall k :: 0 <= k < |batches| ==> |batches[k]| == BatchSize
    ensures |batch| < BatchSize && (|buf| > 0 <==> |lines| > 0)
  {
    batches, batch, count, buf, msgOffset, done := [], [], 0, [], 0, [];
    offset := 0;
    var i := 0;
    while i < |lines|
      invariant Scanned(lines, i, parse, batches, batch, count, buf, msgOffset, offset, done)
    {
      batches, batch, count, buf, msgOffset, offset, done :=
        ScanLine(lines, i, parse, batches, batch, count, buf, msgOffset, offset, done);
      i := i + 1;
    }
  }

  /** `create_index`: the scan, the record of the last message, and the
      final flush. */
  method CreateIndex(lines: seq<Line>, parse: HeaderParser) returns (batches: seq<seq<Record>>, count: nat)
    ensures count == |Split(lines)|
    ensures batches == ChunksOf(Index(lines, parse), BatchSize)
    ensures Concat(batches) == Index(lines, parse)
    ensures WellBatched(batches, BatchSize)
  {
    var batch, buf, msgOffset, offset;
    ghost var done;
    batches, batch, count, buf, msgOffset, offset, done := ScanLines(lines, parse);
    assert lines[..|lines|] == lines;
    if |buf| > 0 {
      count := count + 1;
      RecordAppended(batches, batch, done, buf, parse);
      batch := batch + [MakeRecord(msgOffset, Concat(buf), parse)];
      done := done + [buf];
    }
    assert done == Split(lines);
    assert Concat(batches) + batch == Index(lines, parse);
    ChunksOfFullBatches(batches, batch, BatchSize);
    if |batch| > 0 {
      batches := batches + [batch];
    }
    ChunksOfSound(Index(lines, parse), BatchSize);
  }

  /** The messages laid end to end are the archive's lines. */
  lemma SplitCovers(lines: seq<Line>)
    ensures Concat(Split(lines)) == lines
  {
    SplitValid(lines);
  }

  /** The message bytes laid end to end are the lines laid end to end. */
  lemma {:induction false} RawsFlatten(groups: seq<seq<Line>>)
    ensures Concat(Raws(groups)) == Concat(Concat(groups))
  {
    if |groups| > 0 {
      RawsFlatten(groups[1..]);
      assert Raws(groups)[1..] == Raws(groups[1..]);
      ConcatAppend(groups[0], Concat(groups[1..]));
    }
  }

  /** Where piece `k` sits inside the joined pieces. */
  lemma ConcatAround(raws: seq<seq<byte>>, k: nat)
    requires k < |raws|
    ensures Concat(raws) == Concat(raws[..k]) + raws[k] + Concat(raws[k + 1..])
    ensures |Concat(raws[..k + 1])| == |Concat(raws[..k])| + |raws[k]|
  {
    assert raws == raws[..k] + raws[k..];
    ConcatAppend(raws[..k], raws[k..]);
    assert raws[k..][1..] == raws[k + 1..];
    assert raws[..k + 1] == raws[..k] + [raws[k]];
    ConcatSnoc(raws[..k], raws[k]);
  }

  /** The extents tile the archive: the first message starts at byte 0, each
      later one where the previous one ends, and the last one ends where the
      archive ends, so there is no gap and no overlap. */
  lemma IndexContiguous(lines: seq<Line>, parse: HeaderParser)
    ensures |Index(lines, parse)| == |Split(lines)|
    ensures |Index(lines, parse)| > 0 ==> Index(lines, parse)[0].offset == 0
    ensures forall k :: 0 <= k < |Index(lines, parse)| - 1 ==>
      Index(lines, parse)[k + 1].offset == Index(lines, parse)[k].offset + Index(lines, parse)[k].size
    ensures |Index(lines, parse)| > 0 ==>
      Index(lines, parse)[|Index(lines, parse)| - 1].offset + Index(lines, parse)[|Index(lines, parse)| - 1].size
        == |Concat(lines)|
  {
    ArchiveIsMessages(lines);
    RecordsTile(Concat(lines), Raws(Split(lines)), Index(lines, parse), parse);
  }

  /** The records of a run of messages tile the run joined as `all`. */
  lemma RecordsTile(all: seq<byte>, raws: seq<seq<byte>>, recs: seq<Record>, parse: HeaderParser)
    requires all == Concat(raws) && recs == IndexRecords(raws, parse)
    ensures |recs| > 0 ==> recs[0].offset == 0
    ensures forall k :: 0 <= k < |recs| - 1 ==> recs[k + 1].offset == recs[k].offset + recs[k].size
    ensures |recs| > 0 ==> recs[|recs| - 1].offset + recs[|recs| - 1].size == |all|
  {
    forall k | 0 <= k < |recs| - 1
      ensures recs[k + 1].offset == recs[k].offset + recs[k].size
    {
      NextOffset(raws, parse, k);
    }
    if |recs| > 0 {
      LastExtent(raws, parse);
    }
  }

  /** Each record starts where the one before it ends. */
  lemma NextOffset(raws: seq<seq<byte>>, parse: HeaderParser, k: nat)
    requires k + 1 < |raws|
    ensures IndexRecords(raws, parse)[k + 1].offset
      == IndexRecords(raws, parse)[k].offset + IndexRecords(raws, parse)[k].size
  {
    ConcatAround(raws, k);
  }

  /** The last record ends where the joined messages end. */
  lemma LastExtent(raws: seq<seq<byte>>, parse: HeaderParser)
    requires |raws| > 0
    ensures IndexRecords(raws, parse)[|raws| - 1].offset + IndexRecords(raws, parse)[|raws| - 1].size
      == |Concat(raws)|
  {
    var last := |raws| - 1;
    ConcatAround(raws, last);
    assert raws[..last + 1] == raws;
  }

  /** Piece `k` is found again at its offset in the joined pieces. */
  lemma ConcatSlice(raws: seq<seq<byte>>, k: nat)
    requires k < |raws|
    ensures |Concat(raws[..k])| + |raws[k]| <= |Concat(raws)|
    ensures Concat(raws)[|Concat(raws[..k])| .. |Concat(raws[..k])| + |raws[k]|] == raws[k]
  {
    ConcatAround(raws, k);
  }

  /** Each message after the first starts with `From `, and no message is
      empty when no line is. */
  lemma MessageShape(lines: seq<Line>, k: nat)
    requires k < |Split(lines)|
    ensures k > 0 ==> FromMarker <= Raws(Split(lines))[k]
    ensures (forall i :: 0 <= i < |lines| ==> |lines[i]| > 0) ==> |Raws(Split(lines))[k]| > 0
  {
    var groups := Split(lines);
    SplitValid(lines);
    var g := groups[k];
    assert g == [g[0]] + g[1..];
    assert Concat(g) == g[0] + Concat(g[1..]);
    if forall i :: 0 <= i < |lines| ==> |lines[i]| > 0 {
      ConcatMember(groups, k, 0);
    }
  }

  /** Reading `size` bytes at `offset` gives back exactly the message that was
      indexed there, and the record holds what the parser makes of that
      message's header block. Every message after the first starts with
      `From `, and no message is empty when no line is. */
  lemma IndexExtentReadsMessage(lines: seq<Line>, parse: HeaderParser, k: nat)
    requires k < |Index(lines, parse)|
    ensures Index(lines, parse)[k].offset + Index(lines, parse)[k].size <= |Concat(lines)|
    ensures Concat(lines)[Index(lines, parse)[k].offset .. Index(lines, parse)[k].offset + Index(lines, parse)[k].size]
      == Raws(Split(lines))[k]
    ensures Index(lines, parse)[k]
      == MakeRecord(Index(lines, parse)[k].offset, Raws(Split(lines))[k], parse)
    ensures k > 0 ==> FromMarker <= Raws(Split(lines))[k]
    ensures (forall i :: 0 <= i < |lines| ==> |lines[i]| > 0) ==> Index(lines, parse)[k].size > 0
  {
    ArchiveIsMessages(lines);
    RecordExtent(Concat(lines), Raws(Split(lines)), Index(lines, parse), parse, k);
    MessageShape(lines, k);
  }

  /** The message bytes laid end to end are the archive. */
  lemma ArchiveIsMessages(lines: seq<Line>)
    ensures Concat(lines) == Concat(Raws(Split(lines)))
  {
    SplitCovers(lines);
    RawsFlatten(Split(lines));
  }

  /** Record `k` spans exactly message `k` of the joined messages `all`. */
  lemma RecordExtent(all: seq<byte>, raws: seq<seq<byte>>, recs: seq<Record>, parse: HeaderParser, k: nat)
    requires all == Concat(raws) && recs == IndexRecords(raws, parse) && k < |raws|
    ensures recs[k].offset + recs[k].size <= |all|
    ensures all[recs[k].offset..recs[k].offset + recs[k].size] == raws[k]
    ensures recs[k] == MakeRecord(recs[k].offset, raws[k], parse)
    ensures recs[k].size == |raws[k]|
  {
    ConcatSlice(raws, k);
  }

  /** Every line of a piece is a line of the joined pieces. */
  lemma {:induction false} ConcatMember(groups: seq<seq<Line>>, k: nat, j: nat)
    requires k < |groups| && j < |groups[k]|
    ensures groups[k][j] in Concat(groups)
  {
    if k > 0 {
      ConcatMember(groups[1..], k - 1, j);
    }
  }
}
