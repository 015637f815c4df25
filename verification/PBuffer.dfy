/** The growable, parsing buffer: `BuffAbstract`, `PBufferAbstract` and the two SMTP buffers
    derived from it, as one class.  Virtual dispatch to a derived buffer's hook is a case
    distinction on `hook`. */
module PBuffer {
  import opened Bytes
  import opened Delimited
  import opened BufferView
  import opened Capacity

  /** `std::search` for a non-empty pattern counts the start positions it compares. */
  function ScanWork(d: bytes, s: bytes, from: nat): nat
    requires |d| > 0
    decreases |s| - from
  {
    match Find(d, s, from)
    case None => if from + |d| <= |s| then |s| - |d| - from + 1 else 0
    case Some(j) => j - from + 1 + ScanWork(d, s, j + |d|)
  }

  lemma SliceIsOccurrence(d: bytes, s: bytes, pos: nat)
    requires pos + |d| <= |s|
    ensures s[pos..pos + |d|] == d <==> OccursAt(d, s, pos)
  {
    if s[pos..pos + |d|] == d {
      forall k | 0 <= k < |d| ensures s[pos + k] == d[k] {
        assert s[pos..pos + |d|][k] == d[k];
      }
    }
  }

  lemma SameBytes(a: array<byte>, top: nat, i: nat, j: nat)
    requires i <= j <= top <= a.Length
    ensures a[..top][i..j] == a[i..j]
  {
  }

  /** The texts of parts, delimiters included. */
  function Wholes(s: bytes, ps: seq<Part>): (r: seq<bytes>)
    requires PartsWithin(ps, |s|, 0)
    ensures |r| == |ps|
  {
    seq(|ps|, i requires 0 <= i < |ps| => s[ps[i].begin..ps[i].begin + ps[i].size])
  }

  /** A parsing buffer as a value: what it holds, and its sizes. */
  datatype Buffer = Buffer(view: View, mem: Mem)

  const NEW_BUFFER: Buffer := Buffer(FRESH, Initial())

  predicate Sound(b: Buffer) {
    b.view.unparsed <= |b.view.filled| == b.mem.top && Fits(b.mem)
  }

  /** Room for `n` more bytes; `None` is the overflow exception. */
  function Room(b: Buffer, n: nat): (r: Option<Buffer>)
    requires Sound(b)
    ensures r.Some? ==> Sound(r.value) && r.value.view == b.view && Avail(r.value.mem) >= n
    ensures r.None? <==> b.mem.size > MAX_SIZE
  {
    match Capacity.Release(b.mem, n) case None => None case Some(m) => Some(b.(mem := m))
  }

  /** A chunk that fits has arrived. */
  function TakeIn(hook: Hook, d: bytes, b: Buffer, chunk: bytes): (r: Buffer)
    requires |d| > 0 && Sound(b) && |chunk| <= Avail(b.mem)
    ensures Sound(r) && r.view.filled == b.view.filled + chunk
  {
    Buffer(Accepted(hook, d, b.view, chunk), Capacity.Accept(b.mem, |chunk|))
  }

  /** A buffer after an operation that may throw. */
  datatype Attempted = Attempted(buffer: Buffer, ok: bool)

  function Compacted(hook: Hook, d: bytes, b: Buffer): (r: Attempted)
    requires |d| > 0 && Sound(b)
    ensures Sound(r.buffer)
  {
    hide Reduced, Capacity.MemReduce, Compacts;
    var o := Capacity.MemReduce(b.mem, |Pending(b.view)|);
    Attempted(Buffer(Reduced(hook, d, b.view), o.mem), o.ok)
  }

  function ResetBuffer(b: Buffer): (r: Buffer)
    requires Fits(b.mem)
    ensures Sound(r)
  {
    Buffer(ResetView(b.view), Capacity.Reset(b.mem, false))
  }

  /** What compaction does when it does something. */
  lemma CompactedSteps(hook: Hook, d: bytes, b: Buffer)
    requires |d| > 0 && Sound(b) && Compacts(b.mem.top, |Pending(b.view)|)
    ensures var (p, r) := (Pending(b.view), Room(ResetBuffer(b), |Pending(b.view)|));
            && r.Some? && |p| <= Avail(r.value.mem)
            && var w := TakeIn(hook, d, r.value, p);
               Compacted(hook, d, b) == match Room(w, Avail(b.mem))
                                        case None => Attempted(w, false)
                                        case Some(b') => Attempted(b', true)
  {
    hide Accepted, CalcMem, Capacity.Release, Compacts;
    NotCompacted(b.mem.top);
    assert Reduced(hook, d, b.view) == Accepted(hook, d, ResetView(b.view), Pending(b.view));
  }

  lemma CompactedNot(hook: Hook, d: bytes, b: Buffer)
    requires |d| > 0 && Sound(b) && !Compacts(b.mem.top, |Pending(b.view)|)
    ensures Compacted(hook, d, b) == Attempted(if Pending(b.view) == [] then ResetBuffer(b) else b, true)
  {
  }

  lemma NotCompacted(top: nat)
    ensures !Compacts(top, 0)
  {
  }

  /** A derived buffer's `clear` forgets the contents and what its own hook has kept, except that a
      head buffer keeps its lines and its switch. */
  function Cleared(hook: Hook, b: Buffer): (r: Buffer)
    requires Fits(b.mem)
    ensures Sound(r)
  {
    var v := ResetView(b.view);
    Buffer(match hook
           case CommandLines => v.(lines := [])
           case MessageData => v.(dataEnd := 0)
           case HeadLines(_) => v,
           Capacity.Reset(b.mem, false))
  }

  /** A cleared buffer whose own hook was the only one at work is as new. */
  lemma ClearedIsNew(hook: Hook, b: Buffer)
    requires Fits(b.mem) && b.view.parsing
    requires if hook.CommandLines? then b.view.dataEnd == 0 else hook.MessageData? && b.view.lines == []
    ensures Cleared(hook, b) == NEW_BUFFER
  {
  }

  class ParsingBuffer {
    const delimiter: bytes
    const hook: Hook

    var cdata: array<byte>
    var topOffset: nat
    var size: nat
    var reserved: nat

    var unsearched: nat
    var unparsed: nat
    var enableParsing: bool
    var dataParts: seq<Part>

    var lines: seq<bytes>
    var dataEndOffset: nat

    ghost function Sizes(): Mem
      reads this
    {
      Mem.Mem(topOffset, size, reserved)
    }

    ghost function Contents(): View
      reads this, cdata
      requires topOffset <= cdata.Length
    {
      View.View(cdata[..topOffset], unparsed, unsearched, dataParts, lines, dataEndOffset, enableParsing)
    }

    ghost predicate Valid()
      reads this, cdata
    {
      Fits(Sizes()) && cdata.Length == reserved && WellParsed(delimiter, Contents())
    }

    ghost function Value(): (b: Buffer)
      reads this, cdata
      requires Valid()
      ensures Sound(b) && Avail(b.mem) == size - topOffset
      ensures b.view.lines == lines && b.view.dataEnd == dataEndOffset
    {
      Buffer(Contents(), Sizes())
    }

    constructor (delimiter: bytes, hook: Hook)
      requires |delimiter| > 0
      ensures Valid() && fresh(cdata) && this.delimiter == delimiter && this.hook == hook
      ensures Value() == NEW_BUFFER
    {
      hide WellParsed, CalcMem;
      this.delimiter, this.hook := delimiter, hook;
      topOffset, size := 0, 0;
      unsearched, unparsed, enableParsing, dataParts := 0, 0, true, [];
      lines, dataEndOffset := [], 0;
      reserved := CalcMem(0, BASIC_BLOCK);
      cdata := new byte[CalcMem(0, BASIC_BLOCK)];
      ResetIsParsed(delimiter, FRESH);
    }

    /** `realloc`: a block of `n` bytes that starts with what was there. */
    method Reallocate(n: nat)
      requires topOffset <= cdata.Length && topOffset <= n
      modifies this`cdata, this`reserved
      ensures fresh(cdata) && cdata.Length == n == reserved
      ensures cdata[..topOffset] == old(cdata[..topOffset])
    {
      var block := new byte[n];
      forall i | 0 <= i < topOffset {
        block[i] := cdata[i];
      }
      cdata, reserved := block, n;
    }

    /** Room for `n` more bytes; `ok` is false when the overflow exception is thrown. */
    method Release(n: nat) returns (ok: bool)
      requires Valid()
      modifies this`cdata, this`reserved, this`size
      ensures Valid() && (cdata == old(cdata) || fresh(cdata))
      ensures Contents() == old(Contents())
      ensures match Room(old(Value()), n)
              case None => !ok && Value() == old(Value())
              case Some(b) => ok && Value() == b
    {
      if size > MAX_SIZE {
        return false;
      }
      ok := true;
      if n < size - topOffset {
        return;
      }
      var reservedFree := reserved - topOffset;
      if reservedFree <= n {
        Reallocate(CalcMem(topOffset, n));
      }
      size := topOffset + n;
    }

    /** What the owner of the buffer does with `data_top()`: copies bytes into the free space. */
    method FillTop(chunk: bytes)
      requires Valid() && |chunk| <= size - topOffset
      modifies cdata
      ensures Valid() && Value() == old(Value())
      ensures cdata[topOffset..topOffset + |chunk|] == chunk
    {
      forall i | 0 <= i < |chunk| {
        cdata[topOffset + i] := chunk[i];
      }
      assert cdata[..topOffset] == old(cdata[..topOffset]);
    }

    /** `n` bytes written at the top become part of the contents and are parsed. */
    method Accept(n: nat) returns (ok: bool, ghost work: nat)
      requires Valid()
      modifies this`topOffset, this`unparsed, this`unsearched, this`dataParts, this`lines, this`dataEndOffset,
               this`enableParsing
      ensures Valid()
      ensures ok <==> n <= old(size - topOffset)
      ensures Value() == if ok then TakeIn(hook, delimiter, old(Value()), old(cdata[topOffset..topOffset + n]))
                         else old(Value())
      ensures ok && enableParsing ==> work == ScanWork(delimiter, Contents().filled, old(unsearched))
    {
      hide Parsed, WellParsed, ScanWork;
      work := 0;
      ResumeFinds(delimiter, Contents());
      if n > size - topOffset {
        return false, 0;
      }
      ghost var before, chunk := Contents(), cdata[topOffset..topOffset + n];
      topOffset := topOffset + n;
      assert Contents() == before.(filled := before.filled + chunk);
      GrownKeeps(delimiter, before, chunk);
      if enableParsing {
        var newParts;
        newParts, work := Parse();
      }
      ok := true;
    }

    /** A read into the free space that completes with `chunk`. */
    method Receive(chunk: bytes)
      requires Valid() && |chunk| <= size - topOffset
      modifies this, cdata
      ensures Valid() && cdata == old(cdata)
      ensures Value() == TakeIn(hook, delimiter, old(Value()), chunk)
    {
      hide TakeIn, WellParsed;
      FillTop(chunk);
      var accepted, _ := Accept(|chunk|);
    }

    /** `std::search` in the filled part; `topOffset` when there is no occurrence. */
    method Search(from: nat) returns (pos: nat, ghost tries: nat)
      requires Valid() && from <= topOffset
      ensures match Find(delimiter, Contents().filled, from)
              case None => pos == topOffset
              case Some(j) => pos == j < topOffset
      ensures tries == match Find(delimiter, Contents().filled, from)
                       case None => if from + |delimiter| <= topOffset then topOffset - |delimiter| - from + 1 else 0
                       case Some(j) => j - from + 1
    {
      pos, tries := from, 0;
      while pos + |delimiter| <= topOffset
        invariant from <= pos <= topOffset && tries == pos - from
        invariant from < pos ==> pos + |delimiter| <= topOffset + 1
        invariant Find(delimiter, Contents().filled, from) == Find(delimiter, Contents().filled, pos)
      {
        tries := tries + 1;
        SameBytes(cdata, topOffset, pos, pos + |delimiter|);
        SliceIsOccurrence(delimiter, Contents().filled, pos);
        if cdata[pos..pos + |delimiter|] == delimiter {
          return;
        }
        pos := pos + 1;
      }
      pos := topOffset;
    }

    /** The derived buffer's hook, called for each completed part. */
    method WhenHaveNewPart(begin: nat, partSize: nat)
      requires |delimiter| <= partSize && begin + partSize <= topOffset <= cdata.Length
      modifies this`lines, this`dataEndOffset, this`enableParsing
      ensures Contents() == OnPart(hook, old(Contents()), old(Contents()).filled[begin..begin + partSize - |delimiter|])
    {
      SameBytes(cdata, topOffset, begin, begin + partSize - |delimiter|);
      match hook {
        case CommandLines =>
          lines := lines + [cdata[begin..begin + partSize - |delimiter|]];
        case MessageData =>
          if IsReady() {
            return;
          }
          dataEndOffset := partSize - |delimiter|;
        case HeadLines(stops) =>
          lines := lines + [cdata[begin..begin + partSize - |delimiter|]];
          if stops(lines) {
            enableParsing := false;
          }
      }
    }

    /** Splits off every part that is complete, until the hook switches the parser off.  The search
        resumes where the last one ended; the result is what splitting from the start of the
        unparsed bytes gives. */
    method Parse() returns (newParts: nat, ghost work: nat)
      requires Valid() && enableParsing
      modifies this`unparsed, this`unsearched, this`dataParts, this`lines, this`dataEndOffset, this`enableParsing
      ensures Valid()
      ensures Contents() == Parsed(hook, delimiter, old(Contents()))
      ensures |dataParts| == |old(dataParts)| + newParts
      ensures work <= ScanWork(delimiter, Contents().filled, old(unsearched))
      ensures enableParsing ==> work == ScanWork(delimiter, Contents().filled, old(unsearched))
    {
      hide Parsed, WellParsed, ScanWork;
      ResumeFinds(delimiter, Contents());
      newParts, work := 0, 0;
      var from, more := unsearched, true;
      ghost var left := ScanWork(delimiter, Contents().filled, from);
      while more
        invariant Valid() && topOffset - unparsed >= 0
        invariant more ==> enableParsing && from == unsearched
        invariant if more then Parsed(hook, delimiter, Contents()) == Parsed(hook, delimiter, old(Contents()))
                  else Contents() == Parsed(hook, delimiter, old(Contents()))
        invariant if more then left == ScanWork(delimiter, Contents().filled, from) else enableParsing ==> left == 0
        invariant Contents().filled == old(Contents().filled)
        invariant |dataParts| == |old(dataParts)| + newParts
        invariant work + left == ScanWork(delimiter, old(Contents().filled), old(unsearched))
        decreases more, topOffset - unparsed
      {
        var found;
        ghost var tries;
        from, found, tries, left := ParseTurn(from);
        work := work + tries;
        newParts := newParts + if found then 1 else 0;
        more := found && enableParsing;
      }
    }

    /** One turn of the loop in `parse`: search, then either take a part or note how far the
        search got. */
    method ParseTurn(from: nat) returns (next: nat, found: bool, ghost tries: nat, ghost left: nat)
      requires Valid() && enableParsing && from == unsearched
      modifies this`unparsed, this`unsearched, this`dataParts, this`lines, this`dataEndOffset, this`enableParsing
      ensures Valid() && Contents().filled == old(Contents().filled)
      ensures tries + left == ScanWork(delimiter, old(Contents().filled), from)
      ensures if found && enableParsing
              then Parsed(hook, delimiter, Contents()) == Parsed(hook, delimiter, old(Contents()))
              else Contents() == Parsed(hook, delimiter, old(Contents()))
      ensures found ==> next == unsearched && left == ScanWork(delimiter, Contents().filled, next)
      ensures found ==> topOffset >= unparsed > old(unparsed) && |dataParts| == |old(dataParts)| + 1
      ensures !found ==> left == 0 && unparsed == old(unparsed) && dataParts == old(dataParts) && enableParsing
    {
      hide Parsed, WellParsed, Find;
      ghost var before := Contents();
      ResumeFinds(delimiter, before);
      var pos;
      pos, tries := Search(from);
      found, next, left := pos != topOffset, pos, 0;
      if found {
        ParsedStep(hook, delimiter, before, pos);
        next := TakePart(pos);
        left := ScanWork(delimiter, Contents().filled, next);
      } else {
        ParsedDone(hook, delimiter, before);
        RememberSearch();
      }
    }

    /** The part whose delimiter was found at `pos`: record it, move on, call the hook. */
    method TakePart(pos: nat) returns (next: nat)
      requires Valid() && Find(delimiter, Contents().filled, unparsed) == Some(pos)
      modifies this`unparsed, this`unsearched, this`dataParts, this`lines, this`dataEndOffset, this`enableParsing
      ensures Valid() && Contents() == OnePart(hook, delimiter, old(Contents()), pos)
      ensures next == unsearched == unparsed == pos + |delimiter| <= topOffset && |dataParts| == |old(dataParts)| + 1
    {
      hide OccursAt, PartsOnto, RestFrom, Find;
      ghost var before := Contents();
      OnePartKeeps(hook, delimiter, before, pos);
      next := pos + |delimiter|;
      var partSize := next - unparsed;
      dataParts := dataParts + [Part(unparsed, partSize)];
      unparsed := unparsed + partSize;
      unsearched := unparsed;
      WhenHaveNewPart(unparsed - partSize, partSize);
      assert Contents() == OnePart(hook, delimiter, before, pos);
    }

    /** Nothing found: the next search need not start over. */
    method RememberSearch()
      requires Valid() && UpToDate(delimiter, Contents())
      modifies this`unsearched
      ensures Valid() && Contents() == NoPart(delimiter, old(Contents()))
    {
      hide WellParsed, UpToDate;
      NoPartKeeps(delimiter, Contents());
      if topOffset - unparsed > |delimiter| {
        unsearched := topOffset - |delimiter|;
      }
    }

    /** Both `reset`s: forget the contents, and unless `soft` shrink to the first block. */
    method Reset(soft: bool)
      requires Valid()
      modifies this`cdata, this`reserved, this`size, this`topOffset, this`unparsed, this`unsearched, this`dataParts
      ensures Valid() && (cdata == old(cdata) || fresh(cdata))
      ensures Contents() == ResetView(old(Contents()))
      ensures Sizes() == Capacity.Reset(old(Sizes()), soft)
    {
      hide WellParsed, CalcMem;
      ResumeFinds(delimiter, Contents());
      ResetIsParsed(delimiter, Contents());
      topOffset, size := 0, 0;
      if !soft {
        Reallocate(CalcMem(0, BASIC_BLOCK));
      }
      unparsed, unsearched := 0, 0;
      dataParts := [];
    }

    /** `operator <<`: make room, copy, accept. */
    method Write(text: bytes) returns (ok: bool)
      requires Valid()
      modifies this, cdata
      ensures Valid() && (cdata == old(cdata) || fresh(cdata))
      ensures match Room(old(Value()), |text|)
              case None => !ok && Value() == old(Value())
              case Some(b) => ok && Value() == TakeIn(hook, delimiter, b, text)
    {
      hide Accepted, WellParsed, Capacity.Release;
      ok := Release(|text|);
      if ok {
        FillTop(text);
        var accepted, _ := Accept(|text|);
      }
    }

    /** Frees the memory of what was parsed, if little is left unparsed. */
    method MemReduce() returns (ok: bool)
      requires Valid()
      modifies this, cdata
      ensures Valid() && (cdata == old(cdata) || fresh(cdata))
      ensures Attempted(Value(), ok) == Compacted(hook, delimiter, old(Value()))
    {
      hide Accepted, WellParsed, CalcMem, Capacity.Release, Capacity.Write, Capacity.MemReduce, Compacted, Room, TakeIn;
      ResumeFinds(delimiter, Contents());
      ghost var b := Value();
      var rdDataSize := topOffset - unparsed;
      SameBytes(cdata, topOffset, unparsed, topOffset);
      if rdDataSize == 0 || rdDataSize * 100 > 10 * topOffset {
        if rdDataSize == 0 {
          Reset(false);
        }
        CompactedNot(hook, delimiter, b);
        return true;
      }
      CompactedSteps(hook, delimiter, b);
      var freeTmp := size - topOffset;
      var redundantTmp := cdata[unparsed..topOffset];
      Reset(false);
      ok := Write(redundantTmp);
      ok := Release(freeTmp);
    }

    // -------------------------------------------------------------- SmtpCmdBuffer

    predicate IsEmpty()
      reads this
    {
      lines == []
    }

    /** The oldest line, or an empty one when there is none. */
    method GetLine() returns (line: bytes)
      requires Valid()
      modifies this`lines
      ensures Valid()
      ensures Value() == old(Value()).(view := old(Value()).view.(lines := lines))
      ensures if old(lines) == [] then line == [] && lines == [] else [line] + lines == old(lines)
    {
      line := [];
      if !IsEmpty() {
        line := lines[0];
        lines := lines[1..];
      }
    }

    // -------------------------------------------------------------- SmtpDataBuffer

    predicate IsReady()
      reads this
    {
      dataEndOffset > 0
    }

    /** The first `dataEndOffset` bytes of the buffer. */
    method GetData() returns (data: bytes)
      requires Valid() && dataEndOffset <= topOffset
      ensures data == Contents().filled[..dataEndOffset]
    {
      data := cdata[..dataEndOffset];
    }

    /** `clear` of a derived buffer; that of a head buffer forgets neither lines nor switch. */
    method Clear()
      requires Valid()
      modifies this`cdata, this`reserved, this`size, this`topOffset, this`unparsed, this`unsearched, this`dataParts,
               this`lines, this`dataEndOffset
      ensures Valid() && (cdata == old(cdata) || fresh(cdata))
      ensures Value() == Cleared(hook, old(Value()))
    {
      Reset(false);
      match hook {
        case CommandLines => lines := [];
        case MessageData => dataEndOffset := 0;
        case HeadLines(_) =>
      }
    }

    // -------------------------------------------------------------- get_buff_dala_list

    /** The recorded parts as strings.  When nothing completed is waiting these are all the
        pieces of the buffer's contents. */
    method GetBuffDataList(trimDelimiter: bool) returns (list: seq<bytes>)
      requires Valid()
      ensures if trimDelimiter then list == Texts(delimiter, Contents().filled, dataParts)
              else list == Wholes(Contents().filled, dataParts)
      ensures trimDelimiter && UpToDate(delimiter, Contents()) ==> list == Lines(delimiter, Contents().filled)
    {
      hide Find, OccursAt, PartsOnto, RestFrom;
      list := [];
      var n := if trimDelimiter then |delimiter| else 0;
      for i := 0 to |dataParts|
        invariant |list| == i
        invariant forall k :: 0 <= k < i ==>
          list[k] == Contents().filled[dataParts[k].begin..dataParts[k].begin + dataParts[k].size - n]
      {
        var p := dataParts[i];
        SameBytes(cdata, topOffset, p.begin, p.begin + p.size - n);
        list := list + [cdata[p.begin..p.begin + p.size - n]];
      }
      if UpToDate(delimiter, Contents()) {
        UpToDateParts(delimiter, Contents());
      }
    }
  }
}
