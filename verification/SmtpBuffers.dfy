/** Whole runs of the two SMTP buffers: however the network cuts the stream into chunks, and
    whenever the command buffer compacts itself, the lines and the message are those of the
    stream. */
module SmtpBuffers {
  import opened Bytes
  import opened Delimited
  import opened BufferView
  import opened PBuffer
  import Capacity

  const CRLF: bytes := [13, 10]
  const END_OF_DATA: bytes := [13, 10, 46, 13, 10]

  // ---------------------------------------------------------------- the command buffer

  datatype CmdOp = Chunk(data: bytes) | TakeLine | Compact

  /** The buffer and all lines taken out of it so far. */
  datatype CmdState = CmdState(v: View, delivered: seq<bytes>)

  function CmdStep(d: bytes, st: CmdState, op: CmdOp): CmdState
    requires |d| > 0 && st.v.unparsed <= |st.v.filled|
  {
    match op
    case Chunk(data) => st.(v := Accepted(CommandLines, d, st.v, data))
    case TakeLine =>
      if st.v.lines == [] then st
      else CmdState(st.v.(lines := st.v.lines[1..]), st.delivered + [st.v.lines[0]])
    case Compact => st.(v := Reduced(CommandLines, d, st.v))
  }

  /** The state agrees with the stream seen so far. */
  ghost predicate Tracks(d: bytes, st: CmdState, stream: bytes) {
    && WellParsed(d, st.v) && UpToDate(d, st.v) && st.v.parsing
    && st.delivered + st.v.lines == Lines(d, stream)
    && Pending(st.v) == Rest(d, stream)
  }

  function Taken(op: CmdOp): bytes {
    if op.Chunk? then op.data else []
  }

  function Stream(ops: seq<CmdOp>): bytes {
    if ops == [] then [] else Stream(ops[..|ops| - 1]) + Taken(ops[|ops| - 1])
  }

  /** What parsing after new bytes completes is what the longer stream completes. */
  lemma ParsedTracks(d: bytes, v: View, chunk: bytes, stream: bytes)
    requires WellParsed(d, v) && v.parsing && Pending(v) == Rest(d, stream)
    ensures var v' := Accepted(CommandLines, d, v, chunk);
            && WellParsed(d, v') && UpToDate(d, v')
            && v'.lines == v.lines + Lines(d, Pending(v) + chunk)
            && Pending(v') == Rest(d, Pending(v) + chunk)
    ensures Lines(d, stream + chunk) == Lines(d, stream) + Lines(d, Pending(v) + chunk)
    ensures Rest(d, stream + chunk) == Rest(d, Pending(v) + chunk)
  {
    GrownIsSplit(d, v, chunk);
    StreamGrows(d, stream, chunk);
  }

  lemma GrownIsSplit(d: bytes, v: View, chunk: bytes)
    requires WellParsed(d, v) && v.parsing
    ensures var v' := Accepted(CommandLines, d, v, chunk);
            && WellParsed(d, v') && UpToDate(d, v')
            && v'.lines == v.lines + Lines(d, Pending(v) + chunk)
            && Pending(v') == Rest(d, Pending(v) + chunk)
  {
    hide WellParsed, UpToDate, LinesFrom, RestFrom, PartsOnto;
    var v1 := v.(filled := v.filled + chunk);
    ResumeFinds(d, v);
    GrownKeeps(d, v, chunk);
    ParsedKeeps(CommandLines, d, v1);
    assert v1.filled[v.unparsed..] == Pending(v) + chunk;
    LinesShift(d, v1.filled, v.unparsed);
    RestShift(d, v1.filled, v.unparsed);
  }

  lemma RestShift(d: bytes, s: bytes, u: nat)
    requires |d| > 0 && u <= |s|
    ensures s[RestFrom(d, s, u)..] == Rest(d, s[u..])
  {
    hide RestFrom, LinesFrom;
    LinesShift(d, s, u);
  }

  lemma StreamGrows(d: bytes, s: bytes, t: bytes)
    requires |d| > 0
    ensures Lines(d, s + t) == Lines(d, s) + Lines(d, Rest(d, s) + t)
    ensures Rest(d, s + t) == Rest(d, Rest(d, s) + t)
  {
    hide LinesFrom, RestFrom;
    var r := RestFrom(d, s, 0);
    LinesAppend(d, s, t, 0);
    LinesShift(d, s + t, r);
    RestShift(d, s + t, r);
    assert (s + t)[r..] == s[r..] + t;
  }

  lemma SplitOfRest(d: bytes, s: bytes)
    requires |d| > 0
    ensures Lines(d, Rest(d, s)) == [] && Rest(d, Rest(d, s)) == Rest(d, s)
  {
    RestHasNone(d, s, 0);
    FindShift(d, s, RestFrom(d, s, 0), 0);
    LinesDone(d, Rest(d, s));
  }

  lemma StepTracks(d: bytes, st: CmdState, op: CmdOp, stream: bytes)
    requires Tracks(d, st, stream)
    ensures Tracks(d, CmdStep(d, st, op), stream + Taken(op))
  {
    hide WellParsed, UpToDate, Lines, Rest, Accepted;
    ResumeFinds(d, st.v);
    match op {
      case Chunk(data) =>
        ParsedTracks(d, st.v, data, stream);
        var more := Lines(d, Pending(st.v) + data);
        assert st.delivered + (st.v.lines + more) == (st.delivered + st.v.lines) + more;
      case TakeLine =>
        assert stream + [] == stream;
        TakenTracks(d, st);
      case Compact =>
        assert stream + [] == stream;
        CompactTracks(d, st.v, stream);
    }
  }

  lemma TakenTracks(d: bytes, st: CmdState)
    requires WellParsed(d, st.v) && UpToDate(d, st.v)
    ensures var st' := CmdStep(d, st, TakeLine);
            && WellParsed(d, st'.v) && UpToDate(d, st'.v) && Pending(st'.v) == Pending(st.v)
            && st'.delivered + st'.v.lines == st.delivered + st.v.lines
  {
    hide PartsOnto, RestFrom, Find, OccursAt;
  }

  /** Compaction parses the pending bytes anew and finds nothing new in them. */
  lemma CompactTracks(d: bytes, v: View, stream: bytes)
    requires WellParsed(d, v) && UpToDate(d, v) && v.parsing && Pending(v) == Rest(d, stream)
    ensures var v' := Reduced(CommandLines, d, v);
            WellParsed(d, v') && UpToDate(d, v') && v'.lines == v.lines && Pending(v') == Pending(v)
  {
    hide UpToDate, Lines, Rest, PartsOnto, RestFrom, Find, OccursAt, Accepted;
    var empty := ResetView(v);
    ResetIsParsed(d, v);
    GrownIsSplit(d, empty, Pending(v));
    SplitOfRest(d, stream);
    assert Pending(empty) + Pending(v) == Pending(v);
  }

  /** Every run from a fresh buffer, oldest operation first. */
  function CmdRun(d: bytes, ops: seq<CmdOp>): (st: CmdState)
    requires |d| > 0
    ensures Tracks(d, st, Stream(ops))
    decreases |ops|
  {
    if ops == [] then
      FreshTracks(d);
      CmdState(FRESH, [])
    else
      var before := CmdRun(d, ops[..|ops| - 1]);
      StepTracks(d, before, ops[|ops| - 1], Stream(ops[..|ops| - 1]));
      CmdStep(d, before, ops[|ops| - 1])
  }

  lemma FreshTracks(d: bytes)
    requires |d| > 0
    ensures Tracks(d, CmdState(FRESH, []), [])
  {
    hide WellParsed, UpToDate, Lines, Rest;
    assert ResetView(FRESH) == FRESH;
    ResetIsParsed(d, FRESH);
    NothingInNothing(d);
  }

  lemma NothingInNothing(d: bytes)
    requires |d| > 0
    ensures Lines(d, []) == [] && Rest(d, []) == []
  {
    hide Lines, Rest;
    LinesDone(d, []);
  }

  /** Chunk independence: two runs that received the same bytes, cut and compacted in whatever
      ways, have delivered or queued the same lines and hold the same unfinished rest. */
  lemma ChunkIndependence(d: bytes, ops: seq<CmdOp>, ops': seq<CmdOp>)
    requires |d| > 0 && Stream(ops) == Stream(ops')
    ensures var (st, st') := (CmdRun(d, ops), CmdRun(d, ops'));
            && st.delivered + st.v.lines == st'.delivered + st'.v.lines == Lines(d, Stream(ops))
            && Pending(st.v) == Pending(st'.v) == Rest(d, Stream(ops))
  {
    var st, st' := CmdRun(d, ops), CmdRun(d, ops');
  }

  /** The same on the real buffer: a reader that makes room, lets bytes arrive, and takes lines
      or compacts in between.  `ok` is false when the overflow exception ends it. */
  method ReadCommands(b: ParsingBuffer, ops: seq<CmdOp>) returns (delivered: seq<bytes>, ok: bool)
    requires b.Valid() && b.hook == CommandLines && b.Contents() == FRESH
    modifies b, b.cdata
    ensures b.Valid()
    ensures ok ==> delivered + b.lines == Lines(b.delimiter, Stream(ops))
    ensures ok ==> Pending(b.Contents()) == Rest(b.delimiter, Stream(ops))
  {
    hide WellParsed, CmdStep, Lines, Rest;
    delivered, ok := [], true;
    ghost var st := CmdState(b.Contents(), []);
    ResumeFinds(b.delimiter, b.Contents());
    FreshTracks(b.delimiter);
    for i := 0 to |ops|
      invariant b.Valid() && (b.cdata == old(b.cdata) || fresh(b.cdata))
      invariant st == CmdState(b.Contents(), delivered)
      invariant Tracks(b.delimiter, st, Stream(ops[..i]))
    {
      assert ops[..i + 1][..i] == ops[..i];
      ResumeFinds(b.delimiter, st.v);
      StepTracks(b.delimiter, st, ops[i], Stream(ops[..i]));
      var taken;
      taken, ok := ReadStep(b, ops[i], delivered);
      if !ok {
        return;
      }
      delivered := delivered + taken;
      st := CmdStep(b.delimiter, st, ops[i]);
    }
    assert ops[..|ops|] == ops;
  }

  method ReadStep(b: ParsingBuffer, op: CmdOp, ghost delivered: seq<bytes>) returns (taken: seq<bytes>, ok: bool)
    requires b.Valid() && b.hook == CommandLines
    modifies b, b.cdata
    ensures b.Valid() && (b.cdata == old(b.cdata) || fresh(b.cdata))
    ensures ok ==> CmdState(b.Contents(), delivered + taken)
                   == CmdStep(b.delimiter, CmdState(old(b.Contents()), delivered), op)
  {
    hide WellParsed, Accepted, Reduced, Capacity.Release, Capacity.MemReduce;
    taken, ok := [], true;
    match op {
      case Chunk(data) =>
        ok := b.Release(|data|);
        if ok {
          b.Receive(data);
        }
      case TakeLine =>
        if !b.IsEmpty() {
          var line := b.GetLine();
          taken := [line];
        }
      case Compact =>
        ok := b.MemReduce();
    }
  }

  // ---------------------------------------------------------------- the data buffer

  /** Every run of the data buffer from a fresh one, oldest chunk first. */
  function DataRun(d: bytes, chunks: seq<bytes>): (v: View)
    requires |d| > 0
    ensures WellParsed(d, v) && v.parsing
    decreases |chunks|
  {
    if chunks == [] then
      ResetIsParsed(d, FRESH);
      assert ResetView(FRESH) == FRESH;
      FRESH
    else
      var before := DataRun(d, chunks[..|chunks| - 1]);
      GrownKeeps(d, before, chunks[|chunks| - 1]);
      ParsedKeeps(MessageData, d, before.(filled := before.filled + chunks[|chunks| - 1]));
      Accepted(MessageData, d, before, chunks[|chunks| - 1])
  }

  lemma {:induction false} FirstContentConcat(a: seq<bytes>, b: seq<bytes>)
    ensures FirstContent(a + b) == if FirstContent(a) > 0 then FirstContent(a) else FirstContent(b)
  {
    if a == [] {
      assert a + b == b;
    } else {
      assert (a + b)[1..] == a[1..] + b;
      FirstContentConcat(a[1..], b);
    }
  }

  /** A data buffer that has recorded the first non-empty piece of what it received. */
  ghost predicate HasRecorded(d: bytes, v: View) {
    && WellParsed(d, v) && UpToDate(d, v) && v.parsing
    && v.dataEnd == FirstContent(Lines(d, v.filled))
  }

  /** One more chunk, as far as the recorded length is concerned. */
  lemma DataGrows(d: bytes, v: View, chunk: bytes)
    requires HasRecorded(d, v)
    ensures |d| > 0 && v.unparsed <= |v.filled|
    ensures HasRecorded(d, Accepted(MessageData, d, v, chunk))
  {
    hide WellParsed, UpToDate, LinesFrom, RestFrom, PartsOnto;
    var s' := v.filled + chunk;
    ResumeFinds(d, v);
    UpToDateParts(d, v);
    GrownKeeps(d, v, chunk);
    ParsedKeeps(MessageData, d, v.(filled := s'));
    LinesAppend(d, v.filled, chunk, 0);
    FirstContentConcat(Lines(d, v.filled), LinesFrom(d, s', v.unparsed));
  }

  lemma FreshHasRecorded(d: bytes)
    requires |d| > 0
    ensures HasRecorded(d, FRESH)
  {
    hide WellParsed, UpToDate, Lines;
    assert ResetView(FRESH) == FRESH;
    ResetIsParsed(d, FRESH);
    NothingInNothing(d);
  }

  /** After any chunking the recorded length is that of the first non-empty piece of the stream. */
  lemma {:induction false} DataRunMeaning(d: bytes, chunks: seq<bytes>)
    requires |d| > 0
    ensures var v := DataRun(d, chunks); HasRecorded(d, v) && v.filled == Concat(chunks)
    decreases |chunks|
  {
    hide HasRecorded, WellParsed, Accepted;
    if chunks == [] {
      FreshHasRecorded(d);
    } else {
      var before, last := chunks[..|chunks| - 1], chunks[|chunks| - 1];
      DataRunMeaning(d, before);
      DataGrows(d, DataRun(d, before), last);
      assert chunks == before + [last];
      ConcatSnoc(before, last);
    }
  }

  /** What the data buffer promises for the stream `s`: ready exactly when the end-of-data
      delimiter is complete, and then `get_data` is what precedes it. */
  predicate ExtractsMessage(d: bytes, s: bytes, v: View) {
    && (v.dataEnd > 0 <==> Find(d, s, 0).Some?)
    && (v.dataEnd > 0 ==> v.dataEnd <= |s| && s[..v.dataEnd] == s[..Find(d, s, 0).value])
  }

  /** It keeps the promise exactly on the streams that do not begin with the delimiter: the length
      recorded for a part is not an offset, and 0 is "not ready". */
  lemma RecordedExtracts(d: bytes, v: View)
    requires HasRecorded(d, v)
    ensures |d| > 0
    ensures ExtractsMessage(d, v.filled, v) <==> !OccursAt(d, v.filled, 0)
    ensures !OccursAt(d, v.filled, 0) && v.dataEnd > 0 ==> Find(d, v.filled, 0) == Some(v.dataEnd)
  {
    hide UpToDate, Lines, OccursAt, RestFrom, PartsOnto;
    var s := v.filled;
    FindIsFirst(d, s, 0);
    match Find(d, s, 0) {
      case None => LinesDone(d, s);
      case Some(j) =>
        LinesStep(d, s, j);
        assert Lines(d, s)[0] == s[..j];
        if j == 0 && v.dataEnd > 0 && v.dataEnd <= |s| {
          assert s[..v.dataEnd] != s[..0];
        }
    }
  }

  /** The same for every chunking of a stream. */
  lemma MessageExtraction(d: bytes, chunks: seq<bytes>)
    requires |d| > 0
    ensures ExtractsMessage(d, Concat(chunks), DataRun(d, chunks)) <==> !OccursAt(d, Concat(chunks), 0)
  {
    hide HasRecorded, ExtractsMessage, OccursAt, DataRun;
    DataRunMeaning(d, chunks);
    RecordedExtracts(d, DataRun(d, chunks));
  }

  lemma OnlyDelimiter(d: bytes)
    requires |d| > 0
    ensures Find(d, d, 0) == Some(0) && Lines(d, d) == [[]]
  {
    hide Lines, Rest, Find;
    assert OccursAt(d, d, 0);
    FindIs(d, d, 0, 0);
    LinesStep(d, d, 0);
    assert d[..0] == [] && d[|d|..] == [];
    NothingInNothing(d);
  }

  /** The failing family in its smallest form: a stream that is just the delimiter never makes the
      buffer ready, although its message, an empty one, is complete. */
  lemma LeadingDelimiterIsMissed(d: bytes)
    requires |d| > 0
    ensures DataRun(d, [d]).dataEnd == 0 && Find(d, Concat([d]), 0) == Some(0)
  {
    hide DataRun, Lines, Find, WellParsed, UpToDate;
    assert Concat([d]) == d + Concat([]) == d;
    DataRunMeaning(d, [d]);
    OnlyDelimiter(d);
    assert FirstContent([[]]) == FirstContent([]);
  }

  lemma DataRunStep(d: bytes, chunks: seq<bytes>, last: bytes)
    requires |d| > 0
    ensures var (v, v') := (DataRun(d, chunks), DataRun(d, chunks + [last]));
            v'.filled == v.filled + last && (v.dataEnd > 0 ==> v'.dataEnd == v.dataEnd)
  {
    hide WellParsed, LinesFrom, PartsOnto, RestFrom;
    assert (chunks + [last])[..|chunks|] == chunks;
  }

  /** Once ready, later chunks change neither the length nor the data. */
  lemma {:induction false} MessageIsFinal(d: bytes, chunks: seq<bytes>, later: seq<bytes>)
    requires |d| > 0 && DataRun(d, chunks).dataEnd > 0
    ensures var (v, v') := (DataRun(d, chunks), DataRun(d, chunks + later));
            v'.dataEnd == v.dataEnd <= |v.filled| && v.filled <= v'.filled
    decreases |later|
  {
    hide DataRun, WellParsed;
    if later == [] {
      assert chunks + later == chunks;
      DataRunMeaning(d, chunks);
      FirstContentFits(d, Concat(chunks));
    } else {
      var init, last := later[..|later| - 1], later[|later| - 1];
      MessageIsFinal(d, chunks, init);
      assert chunks + later == (chunks + init) + [last];
      DataRunStep(d, chunks + init, last);
    }
  }

  lemma {:induction false} FirstContentFits(d: bytes, s: bytes)
    requires |d| > 0
    ensures FirstContent(Lines(d, s)) <= |s|
    decreases |s|
  {
    match Find(d, s, 0) {
      case None => LinesDone(d, s);
      case Some(j) =>
        LinesStep(d, s, j);
        FirstContentFits(d, s[j + |d|..]);
    }
  }

  /** The same on the real buffer: a reader that makes room, lets each chunk arrive, and takes the
      data when the buffer is ready.  `ok` is false when the overflow exception ends it. */
  method ReceiveMessage(b: ParsingBuffer, chunks: seq<bytes>) returns (ready: bool, data: bytes, ok: bool)
    requires b.Valid() && b.hook == MessageData && b.Contents() == FRESH
    modifies b, b.cdata
    ensures b.Valid()
    ensures ok ==> b.Contents() == DataRun(b.delimiter, chunks)
    ensures ok && !OccursAt(b.delimiter, Concat(chunks), 0) ==>
              match Find(b.delimiter, Concat(chunks), 0)
              case None => !ready
              case Some(j) => ready && data == Concat(chunks)[..j]
  {
    hide WellParsed, Accepted, HasRecorded, OccursAt, Find, Capacity.Release;
    ready, data, ok := false, [], true;
    ghost var d := b.delimiter;
    ResumeFinds(d, b.Contents());
    for i := 0 to |chunks|
      invariant b.Valid() && (b.cdata == old(b.cdata) || fresh(b.cdata))
      invariant b.Contents() == DataRun(d, chunks[..i])
    {
      assert chunks[..i + 1][..i] == chunks[..i];
      ok := b.Release(|chunks[i]|);
      if !ok {
        return;
      }
      b.Receive(chunks[i]);
    }
    assert chunks[..|chunks|] == chunks;
    DataRunMeaning(d, chunks);
    RecordedFits(d, b.Contents());
    RecordedExtracts(d, b.Contents());
    ready := b.IsReady();
    if ready {
      data := b.GetData();
    }
  }

  lemma RecordedFits(d: bytes, v: View)
    requires HasRecorded(d, v)
    ensures v.dataEnd <= |v.filled|
  {
    FirstContentFits(d, v.filled);
  }

  // ---------------------------------------------------------------- a head buffer

  /** Some leading lines on which the hook switches the parser off. */
  ghost predicate StopsIn(stops: seq<bytes> -> bool, ls: seq<bytes>) {
    exists k :: 0 < k <= |ls| && stops(ls[..k])
  }

  /** None but all of the lines together. */
  ghost predicate StopsOnlyAtEnd(stops: seq<bytes> -> bool, ls: seq<bytes>) {
    forall k :: 0 < k < |ls| ==> !stops(ls[..k])
  }

  /** The buffer holds the leading lines of the stream up to the first point where the hook
      switches the parser off, and everything behind them unparsed. */
  ghost predicate HeldHead(d: bytes, stops: seq<bytes> -> bool, v: View, stream: bytes) {
    && WellParsed(d, v)
    && LeftmostPieces(d, v.lines) && Terminated(d, v.lines) + Pending(v) == stream
    && StopsOnlyAtEnd(stops, v.lines)
    && (v.parsing <==> v.lines == [] || !stops(v.lines))
  }

  ghost predicate HeadTracks(d: bytes, stops: seq<bytes> -> bool, v: View, stream: bytes) {
    HeldHead(d, stops, v, stream) && (v.parsing ==> UpToDate(d, v))
  }

  lemma NoPartHolds(d: bytes, stops: seq<bytes> -> bool, v: View, stream: bytes)
    requires HeldHead(d, stops, v, stream) && UpToDate(d, v)
    ensures HeadTracks(d, stops, NoPart(d, v), stream)
  {
    hide WellParsed, UpToDate, LeftmostPieces, Terminated;
    ResumeFinds(d, v);
    NoPartKeeps(d, v);
  }

  lemma HeldIsParsed(d: bytes, stops: seq<bytes> -> bool, v: View, stream: bytes)
    requires HeldHead(d, stops, v, stream)
    ensures WellParsed(d, v)
  {
  }

  lemma CutFromSuffix(s: bytes, u: nat, j: nat, n: nat)
    requires u <= j && j + n <= |s|
    ensures s[u..][..j - u] == s[u..j] && s[u..][j - u + n..] == s[j + n..]
  {
  }

  lemma FoundInSuffix(d: bytes, s: bytes, u: nat, j: nat)
    requires u <= |s| && Find(d, s, u) == Some(j)
    ensures Find(d, s[u..], 0) == Some(j - u)
  {
    hide Find, OccursAt;
    FindShift(d, s, u, 0);
  }

  lemma NotStoppedBefore(stops: seq<bytes> -> bool, ls: seq<bytes>, piece: bytes)
    requires StopsOnlyAtEnd(stops, ls) && (ls == [] || !stops(ls))
    ensures StopsOnlyAtEnd(stops, ls + [piece])
  {
    forall k | 0 < k < |ls + [piece]| ensures !stops((ls + [piece])[..k]) {
      assert (ls + [piece])[..k] == if k < |ls| then ls[..k] else ls;
    }
  }

  lemma LeftmostSnoc(d: bytes, ls: seq<bytes>, piece: bytes)
    requires LeftmostPieces(d, ls) && Find(d, piece + d, 0) == Some(|piece|)
    ensures LeftmostPieces(d, ls + [piece])
  {
    hide Find;
  }

  lemma StreamKept(d: bytes, ls: seq<bytes>, t: bytes, piece: bytes, rest: bytes)
    requires |d| > 0 && Find(d, t, 0) == Some(|piece|) && LeftmostPieces(d, ls)
    requires t[..|piece|] == piece && t[|piece| + |d|..] == rest
    ensures LeftmostPieces(d, ls + [piece])
    ensures Terminated(d, ls + [piece]) + rest == Terminated(d, ls) + t
  {
    hide Find, Terminated, LeftmostPieces;
    PieceIsLeftmost(d, t, |piece|);
    LeftmostSnoc(d, ls, piece);
    TerminatedSnoc(d, ls, piece);
    Regroup(Terminated(d, ls), piece + d, rest);
  }

  lemma OnePartOfHead(d: bytes, stops: seq<bytes> -> bool, v: View, j: nat)
    requires |d| > 0 && v.unparsed <= j && j + |d| <= |v.filled| && v.parsing
    ensures var (v', ls) := (OnePart(HeadLines(stops), d, v, j), v.lines + [v.filled[v.unparsed..j]]);
            v'.lines == ls && v'.parsing == !stops(ls) && Pending(v') == v.filled[j + |d|..]
  {
  }

  lemma OnePartHolds(d: bytes, stops: seq<bytes> -> bool, v: View, stream: bytes, j: nat)
    requires HeldHead(d, stops, v, stream) && v.parsing && Find(d, v.filled, v.unparsed) == Some(j)
    ensures 0 < |d| && v.unparsed <= |v.filled|
    ensures HeldHead(d, stops, OnePart(HeadLines(stops), d, v, j), stream)
  {
    hide WellParsed, Find, Terminated, LeftmostPieces, OnePart, Pending;
    ResumeFinds(d, v);
    OnePartOfHead(d, stops, v, j);
    OnePartKeeps(HeadLines(stops), d, v, j);
    NextPiece(d, stops, v, stream, j);
  }

  lemma NextPiece(d: bytes, stops: seq<bytes> -> bool, v: View, stream: bytes, j: nat)
    requires HeldHead(d, stops, v, stream) && v.parsing && Find(d, v.filled, v.unparsed) == Some(j)
    ensures 0 < |d| && v.unparsed <= |v.filled|
    ensures var ls := v.lines + [v.filled[v.unparsed..j]];
            && LeftmostPieces(d, ls) && Terminated(d, ls) + v.filled[j + |d|..] == stream
            && StopsOnlyAtEnd(stops, ls)
  {
    hide WellParsed, Find, Terminated, LeftmostPieces, StopsOnlyAtEnd;
    ResumeFinds(d, v);
    NextInSuffix(d, v.lines, v.filled, v.unparsed, j);
    NotStoppedBefore(stops, v.lines, v.filled[v.unparsed..j]);
  }

  lemma NextInSuffix(d: bytes, ls: seq<bytes>, s: bytes, u: nat, j: nat)
    requires |d| > 0 && u <= |s| && Find(d, s, u) == Some(j) && LeftmostPieces(d, ls)
    ensures LeftmostPieces(d, ls + [s[u..j]])
    ensures Terminated(d, ls + [s[u..j]]) + s[j + |d|..] == Terminated(d, ls) + s[u..]
  {
    hide Find, Terminated, LeftmostPieces;
    FoundInSuffix(d, s, u, j);
    CutFromSuffix(s, u, j, |d|);
    StreamKept(d, ls, s[u..], s[u..j], s[j + |d|..]);
  }

  lemma {:induction false} ParsedHolds(d: bytes, stops: seq<bytes> -> bool, v: View, stream: bytes)
    requires HeldHead(d, stops, v, stream) && v.parsing
    ensures 0 < |d| && v.unparsed <= |v.filled|
    ensures HeadTracks(d, stops, Parsed(HeadLines(stops), d, v), stream)
    decreases |v.filled| - v.unparsed
  {
    hide HeldHead, WellParsed, Find, Parsed;
    HeldIsParsed(d, stops, v, stream);
    ResumeFinds(d, v);
    var hook := HeadLines(stops);
    match Find(d, v.filled, v.unparsed) {
      case None =>
        ParsedDone(hook, d, v);
        NoPartHolds(d, stops, v, stream);
      case Some(j) =>
        ParsedStep(hook, d, v, j);
        OnePartHolds(d, stops, v, stream, j);
        if OnePart(hook, d, v, j).parsing {
          ParsedHolds(d, stops, OnePart(hook, d, v, j), stream);
        }
    }
  }

  lemma GrownHolds(d: bytes, stops: seq<bytes> -> bool, v: View, stream: bytes, chunk: bytes)
    requires HeldHead(d, stops, v, stream)
    ensures HeldHead(d, stops, v.(filled := v.filled + chunk), stream + chunk)
  {
    hide WellParsed, LeftmostPieces, Terminated;
    ResumeFinds(d, v);
    GrownKeeps(d, v, chunk);
    Regroup(Terminated(d, v.lines), Pending(v), chunk);
    assert Pending(v.(filled := v.filled + chunk)) == Pending(v) + chunk;
  }

  /** Every run of a head buffer from a fresh one, oldest chunk first. */
  ghost function HeadRun(d: bytes, stops: seq<bytes> -> bool, chunks: seq<bytes>): (v: View)
    requires |d| > 0
    ensures HeadTracks(d, stops, v, Concat(chunks))
    decreases |chunks|
  {
    hide HeadTracks, Accepted;
    if chunks == [] then
      FreshHolds(d, stops);
      FRESH
    else
      var init, last := chunks[..|chunks| - 1], chunks[|chunks| - 1];
      var v := HeadRun(d, stops, init);
      HeadAccepts(d, stops, v, Concat(init), last);
      ConcatSnoc(init, last);
      assert chunks == init + [last];
      Accepted(HeadLines(stops), d, v, last)
  }

  lemma FreshHolds(d: bytes, stops: seq<bytes> -> bool)
    requires |d| > 0
    ensures HeadTracks(d, stops, FRESH, [])
  {
    assert ResetView(FRESH) == FRESH;
    ResetIsParsed(d, FRESH);
  }

  lemma HeadAccepts(d: bytes, stops: seq<bytes> -> bool, v: View, stream: bytes, chunk: bytes)
    requires HeadTracks(d, stops, v, stream)
    ensures 0 < |d| && v.unparsed <= |v.filled|
    ensures HeadTracks(d, stops, Accepted(HeadLines(stops), d, v, chunk), stream + chunk)
  {
    hide HeldHead, WellParsed, Parsed;
    HeldIsParsed(d, stops, v, stream);
    ResumeFinds(d, v);
    GrownHolds(d, stops, v, stream, chunk);
    if v.parsing {
      ParsedHolds(d, stops, v.(filled := v.filled + chunk), stream + chunk);
    }
  }

  /** However the stream is cut, a head buffer holds its leading lines up to the first point where
      the hook switches the parser off, or all of them, and the bytes behind are left alone. */
  lemma HeadMeaning(d: bytes, stops: seq<bytes> -> bool, chunks: seq<bytes>)
    requires |d| > 0
    ensures var (v, s) := (HeadRun(d, stops, chunks), Concat(chunks));
            && v.lines <= Lines(d, s) && Terminated(d, v.lines) + Pending(v) == s
            && (v.parsing <==> !StopsIn(stops, Lines(d, s)))
            && (v.parsing ==> v.lines == Lines(d, s))
            && (!v.parsing ==> stops(v.lines) && StopsOnlyAtEnd(stops, v.lines))
  {
    hide WellParsed, LeftmostPieces, Terminated, Lines;
    var v, s := HeadRun(d, stops, chunks), Concat(chunks);
    LinesOfTerminated(d, v.lines, Pending(v));
    if v.parsing {
      PendingHasNone(d, v);
      assert v.lines + [] == v.lines == v.lines[..|v.lines|];
    } else {
      assert Lines(d, s)[..|v.lines|] == v.lines;
    }
  }

  lemma PendingHasNone(d: bytes, v: View)
    requires WellParsed(d, v) && UpToDate(d, v)
    ensures v.unparsed <= |v.filled| && |d| > 0 && Lines(d, Pending(v)) == []
  {
    FindShift(d, v.filled, v.unparsed, 0);
    LinesDone(d, Pending(v));
  }

  // ---------------------------------------------------------------- search work

  /** All start positions compared while the chunks arrive, with no reset in between.  A parse
      that the hook ends has compared fewer. */
  function TotalWork(hook: Hook, d: bytes, v: View, chunks: seq<bytes>): nat
    requires WellParsed(d, v)
    decreases |chunks|
  {
    if chunks == [] || !v.parsing then 0
    else
      GrownKeeps(d, v, chunks[0]);
      ParsedKeeps(hook, d, v.(filled := v.filled + chunks[0]));
      ScanWork(d, v.filled + chunks[0], v.unsearched)
      + TotalWork(hook, d, Accepted(hook, d, v, chunks[0]), chunks[1..])
  }

  lemma {:induction false} ScanWorkBound(d: bytes, s: bytes, from: nat)
    requires |d| > 0 && from <= |s|
    ensures ScanWork(d, s, from) <= |s| - from
    decreases |s| - from
  {
    match Find(d, s, from) {
      case None =>
      case Some(j) => ScanWorkBound(d, s, j + |d|);
    }
  }

  /** The next search goes back over at most one delimiter's length. */
  ghost predicate Resumes(d: bytes, v: View) {
    WellParsed(d, v) && (v.parsing ==> v.unsearched >= |v.filled| - |d|)
  }

  lemma WorkOfOneChunk(hook: Hook, d: bytes, v: View, chunk: bytes)
    requires Resumes(d, v) && v.parsing
    ensures ScanWork(d, v.filled + chunk, v.unsearched) <= |chunk| + |d|
    ensures Resumes(d, Accepted(hook, d, v, chunk))
  {
    hide PartsOnto, RestFrom, Find, OccursAt, LinesFrom, ScanWork;
    ResumeFinds(d, v);
    GrownKeeps(d, v, chunk);
    ParsedKeeps(hook, d, v.(filled := v.filled + chunk));
    ScanWorkBound(d, v.filled + chunk, v.unsearched);
  }

  lemma TotalWorkStep(hook: Hook, d: bytes, v: View, chunks: seq<bytes>)
    requires Resumes(d, v) && v.parsing && chunks != []
    ensures 0 < |d| && v.unparsed <= |v.filled|
    ensures var v' := Accepted(hook, d, v, chunks[0]);
            && WellParsed(d, v')
            && TotalWork(hook, d, v, chunks)
               == ScanWork(d, v.filled + chunks[0], v.unsearched) + TotalWork(hook, d, v', chunks[1..])
  {
    hide PartsOnto, RestFrom, Find, OccursAt, LinesFrom, ScanWork, Parsed;
    GrownKeeps(d, v, chunks[0]);
    ParsedKeeps(hook, d, v.(filled := v.filled + chunks[0]));
  }

  /** `k` times `n`, by addition. */
  function Repeated(k: nat, n: nat): nat {
    if k == 0 then 0 else n + Repeated(k - 1, n)
  }

  lemma {:induction false} RepeatedIs(k: nat, n: nat)
    ensures Repeated(k, n) == k * n
  {
    if k > 0 {
      RepeatedIs(k - 1, n);
      assert k * n == (k - 1) * n + n;
    }
  }

  lemma BoundStep(chunks: seq<bytes>, n: nat)
    requires chunks != []
    ensures |Concat(chunks)| + Repeated(|chunks|, n)
         == |chunks[0]| + n + |Concat(chunks[1..])| + Repeated(|chunks[1..]|, n)
  {
  }

  lemma {:induction false} WorkAdds(hook: Hook, d: bytes, v: View, chunks: seq<bytes>)
    requires Resumes(d, v)
    ensures TotalWork(hook, d, v, chunks) <= |Concat(chunks)| + Repeated(|chunks|, |d|)
    decreases |chunks|
  {
    if chunks != [] && v.parsing {
      hide WellParsed, Resumes, ScanWork, Accepted, TotalWork, Concat, Repeated;
      BoundStep(chunks, |d|);
      TotalWorkStep(hook, d, v, chunks);
      WorkOfOneChunk(hook, d, v, chunks[0]);
      WorkAdds(hook, d, Accepted(hook, d, v, chunks[0]), chunks[1..]);
    }
  }

  /** Receiving N bytes in k chunks compares at most N + k * |delimiter| start positions. */
  lemma SearchWorkBound(hook: Hook, d: bytes, v: View, chunks: seq<bytes>)
    requires Resumes(d, v)
    ensures TotalWork(hook, d, v, chunks) <= |Concat(chunks)| + |chunks| * |d|
  {
    hide WellParsed, TotalWork, Repeated;
    WorkAdds(hook, d, v, chunks);
    RepeatedIs(|chunks|, |d|);
  }
}
