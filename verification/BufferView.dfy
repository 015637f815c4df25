/** What a parsing buffer holds, as a value, and what each of its operations makes of it.

    The buffer class is proved to move through these values.  The lemmas here are about the
    values: parsing that resumes from saved offsets agrees with splitting from scratch. */
module BufferView {
  import opened Bytes
  import opened Delimited
  import Capacity

  /** Which derived buffer's hook is called for a completed part.  The hook of a buffer that reads a
      head collects its lines and switches the parser off when `stops` holds of the lines so far. */
  datatype Hook = CommandLines | MessageData | HeadLines(stops: seq<bytes> -> bool)

  /** `filled` are the accepted bytes since the last reset.  `lines` is the queue the command
      buffer's hook fills; `dataEnd` is the length of message data the data buffer's hook
      records, 0 as long as there is none.  `parsing` is the parser's switch. */
  datatype View = View(filled: bytes, unparsed: nat, unsearched: nat, parts: seq<Part>, lines: seq<bytes>,
                       dataEnd: nat, parsing: bool)

  const FRESH: View := View([], 0, 0, [], [], 0, true)

  /** The unparsed end of the buffer. */
  function Pending(v: View): bytes
    requires v.unparsed <= |v.filled|
  {
    v.filled[v.unparsed..]
  }

  /** The length of the first piece that is not empty. */
  function FirstContent(ls: seq<bytes>): nat {
    if ls == [] then 0 else if ls[0] != [] then |ls[0]| else FirstContent(ls[1..])
  }

  /** The hook of one completed piece. */
  function OnPart(hook: Hook, v: View, piece: bytes): View {
    match hook
    case CommandLines => v.(lines := v.lines + [piece])
    case MessageData => if v.dataEnd > 0 then v else v.(dataEnd := |piece|)
    case HeadLines(stops) => v.(lines := v.lines + [piece], parsing := v.parsing && !stops(v.lines + [piece]))
  }

  /** One completed part whose delimiter starts at `j`. */
  function OnePart(hook: Hook, d: bytes, v: View, j: nat): (r: View)
    requires |d| > 0 && v.unparsed <= j && j + |d| <= |v.filled|
    ensures r.filled == v.filled && r.unparsed == j + |d|
  {
    var n := j + |d|;
    OnPart(hook, v.(unparsed := n, unsearched := n, parts := v.parts + [Part(v.unparsed, n - v.unparsed)]),
           v.filled[v.unparsed..j])
  }

  /** No further delimiter: remember how far the search got. */
  function NoPart(d: bytes, v: View): View {
    if |v.filled| > v.unparsed + |d| then v.(unsearched := |v.filled| - |d|) else v
  }

  /** Parsing, from scratch: everything that completes is split off at once. */
  function ParsedAll(hook: Hook, d: bytes, v: View): (r: View)
    requires |d| > 0 && v.unparsed <= |v.filled|
    ensures r.filled == v.filled && r.unparsed <= |r.filled| && r.parsing == v.parsing
  {
    var ls, rest := LinesFrom(d, v.filled, v.unparsed), RestFrom(d, v.filled, v.unparsed);
    NoPart(d, View(v.filled, rest,
                   if rest == v.unparsed then v.unsearched else rest,
                   PartsOnto(v.parts, d, v.filled, v.unparsed),
                   if hook.CommandLines? then v.lines + ls else v.lines,
                   if hook.MessageData? && v.dataEnd == 0 then FirstContent(ls) else v.dataEnd,
                   v.parsing))
  }

  /** The same one part at a time, for a hook that may end it. */
  function ParsedHead(hook: Hook, d: bytes, v: View): (r: View)
    requires |d| > 0 && v.unparsed <= |v.filled|
    ensures r.filled == v.filled && r.unparsed <= |r.filled|
    decreases |v.filled| - v.unparsed
  {
    match Find(d, v.filled, v.unparsed)
    case None => NoPart(d, v)
    case Some(j) =>
      var v' := OnePart(hook, d, v, j);
      if v'.parsing then ParsedHead(hook, d, v') else v'
  }

  function Parsed(hook: Hook, d: bytes, v: View): (r: View)
    requires |d| > 0 && v.unparsed <= |v.filled|
    ensures r.filled == v.filled && r.unparsed <= |r.filled|
    ensures !hook.HeadLines? ==> r.parsing == v.parsing
  {
    if hook.HeadLines? then ParsedHead(hook, d, v) else ParsedAll(hook, d, v)
  }

  /** New bytes are parsed unless the parser is off. */
  function Accepted(hook: Hook, d: bytes, v: View, chunk: bytes): (r: View)
    requires |d| > 0 && v.unparsed <= |v.filled|
    ensures r.filled == v.filled + chunk && r.unparsed <= |r.filled|
    ensures !hook.HeadLines? ==> r.parsing == v.parsing
  {
    var v' := v.(filled := v.filled + chunk);
    if v.parsing then Parsed(hook, d, v') else v'
  }

  function ResetView(v: View): View {
    v.(filled := [], unparsed := 0, unsearched := 0, parts := [])
  }

  /** Compaction: start over and take the pending bytes in again. */
  function Reduced(hook: Hook, d: bytes, v: View): (r: View)
    requires |d| > 0 && v.unparsed <= |v.filled|
    ensures r.unparsed <= |r.filled|
    ensures |r.filled| == if Pending(v) == [] || Capacity.Compacts(|v.filled|, |Pending(v)|) then |Pending(v)|
                          else |v.filled|
    ensures !hook.HeadLines? ==> r.parsing == v.parsing
  {
    if Pending(v) == [] then ResetView(v)
    else if !Capacity.Compacts(|v.filled|, |Pending(v)|) then v
    else Accepted(hook, d, ResetView(v), Pending(v))
  }

  // ---------------------------------------------------------------- the parsing invariant

  /** Nothing completed is waiting. */
  predicate UpToDate(d: bytes, v: View) {
    Find(d, v.filled, v.unparsed).None?
  }

  /** The saved offsets are sound: no delimiter starts between them, and going on from them gives
      the parts that splitting the buffer from its beginning gives. */
  ghost predicate WellParsed(d: bytes, v: View) {
    && 0 < |d|
    && v.unparsed <= |v.filled| && v.unparsed <= v.unsearched
    && (v.unsearched == v.unparsed || v.unsearched + |d| <= |v.filled|)
    && (forall k :: v.unparsed <= k < v.unsearched ==> !OccursAt(d, v.filled, k))
    && PartsWithin(v.parts, |v.filled|, |d|)
    && PartsOnto(v.parts, d, v.filled, v.unparsed) == PartsOnto([], d, v.filled, 0)
    && RestFrom(d, v.filled, v.unparsed) == RestFrom(d, v.filled, 0)
  }

  /** With nothing waiting, the recorded parts are those of the whole buffer. */
  lemma UpToDateParts(d: bytes, v: View)
    requires WellParsed(d, v) && UpToDate(d, v)
    ensures v.parts == PartsOnto([], d, v.filled, 0)
    ensures v.unparsed == RestFrom(d, v.filled, 0)
  {
    NoMoreParts(v.parts, d, v.filled, v.unparsed);
  }

  /** One turn of the parse loop is one step of the split, unless the hook ends it. */
  lemma ParsedStep(hook: Hook, d: bytes, v: View, j: nat)
    requires |d| > 0 && v.unparsed <= |v.filled| && v.parsing && Find(d, v.filled, v.unparsed) == Some(j)
    ensures var v' := OnePart(hook, d, v, j);
            Parsed(hook, d, v) == if v'.parsing then Parsed(hook, d, v') else v'
  {
    if !hook.HeadLines? {
      ParsedAllStep(hook, d, v, j);
    }
  }

  lemma ParsedAllStep(hook: Hook, d: bytes, v: View, j: nat)
    requires |d| > 0 && v.unparsed <= |v.filled| && Find(d, v.filled, v.unparsed) == Some(j) && !hook.HeadLines?
    ensures ParsedAll(hook, d, OnePart(hook, d, v, j)) == ParsedAll(hook, d, v)
  {
    hide Find, LinesFrom, PartsOnto, RestFrom, FirstContent, NoPart;
    var piece, more := v.filled[v.unparsed..j], LinesFrom(d, v.filled, j + |d|);
    FirstContentCons(piece, more);
    LinesFromStep(d, v.filled, v.unparsed, j);
    OneMorePart(v.parts, d, v.filled, v.unparsed, j);
    assert v.lines + [piece] + more == v.lines + ([piece] + more);
  }

  lemma FirstContentCons(piece: bytes, more: seq<bytes>)
    ensures FirstContent([piece] + more) == if piece != [] then |piece| else FirstContent(more)
  {
    assert ([piece] + more)[1..] == more;
  }

  /** The loop ends where nothing further is found. */
  lemma ParsedDone(hook: Hook, d: bytes, v: View)
    requires |d| > 0 && v.unparsed <= |v.filled| && UpToDate(d, v)
    ensures Parsed(hook, d, v) == NoPart(d, v)
  {
    NoMoreParts(v.parts, d, v.filled, v.unparsed);
    NoMoreParts([], d, v.filled, v.unparsed);
    PartsStayWithin([], d, v.filled, v.unparsed);
    assert v.lines + LinesFrom(d, v.filled, v.unparsed) == v.lines;
  }

  lemma ResetIsParsed(d: bytes, v: View)
    requires |d| > 0
    ensures WellParsed(d, ResetView(v)) && UpToDate(d, ResetView(v))
  {
  }

  /** The search may resume at the saved offset. */
  lemma ResumeFinds(d: bytes, v: View)
    requires WellParsed(d, v)
    ensures 0 < |d| && v.unparsed <= |v.filled| && v.unparsed <= v.unsearched <= |v.filled|
    ensures Find(d, v.filled, v.unparsed) == Find(d, v.filled, v.unsearched)
  {
    FindResume(d, v.filled, v.unparsed, v.unsearched);
  }

  lemma OnePartKeeps(hook: Hook, d: bytes, v: View, j: nat)
    requires WellParsed(d, v) && Find(d, v.filled, v.unparsed) == Some(j)
    ensures WellParsed(d, OnePart(hook, d, v, j))
  {
    hide Find, PartsOnto, RestFrom;
    OneMorePart(v.parts, d, v.filled, v.unparsed, j);
  }

  lemma NoPartKeeps(d: bytes, v: View)
    requires WellParsed(d, v) && UpToDate(d, v)
    ensures WellParsed(d, NoPart(d, v)) && UpToDate(d, NoPart(d, v))
    ensures NoPart(d, v).unsearched >= |v.filled| - |d|
  {
    hide PartsOnto, RestFrom;
    FindIsFirst(d, v.filled, v.unparsed);
  }

  lemma {:induction false} ParsedKeeps(hook: Hook, d: bytes, v: View)
    requires WellParsed(d, v) && v.parsing
    ensures WellParsed(d, Parsed(hook, d, v))
    ensures Parsed(hook, d, v).parsing ==> UpToDate(d, Parsed(hook, d, v))
    ensures Parsed(hook, d, v).parsing ==> Parsed(hook, d, v).unsearched >= |v.filled| - |d|
    decreases |v.filled| - v.unparsed
  {
    hide Parsed, PartsOnto, RestFrom, Find, OccursAt;
    match Find(d, v.filled, v.unparsed) {
      case None =>
        ParsedDone(hook, d, v);
        NoPartKeeps(d, v);
      case Some(j) =>
        ParsedStep(hook, d, v, j);
        OnePartKeeps(hook, d, v, j);
        if OnePart(hook, d, v, j).parsing {
          ParsedKeeps(hook, d, OnePart(hook, d, v, j));
        }
    }
  }

  /** New bytes at the end invalidate no saved offset. */
  lemma GrownKeeps(d: bytes, v: View, chunk: bytes)
    requires WellParsed(d, v)
    ensures WellParsed(d, v.(filled := v.filled + chunk))
  {
    hide Find, PartsOnto, RestFrom;
    forall k | v.unparsed <= k < v.unsearched ensures !OccursAt(d, v.filled + chunk, k) {
      OccursExtend(d, v.filled, chunk, k);
    }
    PartsAppend([], d, v.filled, chunk, 0);
    PartsAppend(v.parts, d, v.filled, chunk, v.unparsed);
  }
}
