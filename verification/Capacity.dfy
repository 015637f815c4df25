/** The size arithmetic of the growable buffer: how much is filled, how much may be written, how
    much is reserved.  The buffer class is proved to move through these states; here are the
    properties of every run of them. */
module Capacity {
  import opened Bytes

  const BASIC_BLOCK: nat := 1024
  const MAX_SIZE: nat := 80_000_000

  /** `top` bytes are filled, `size - top` more may be written, `reserved` are allocated. */
  datatype Mem = Mem(top: nat, size: nat, reserved: nat)

  predicate Fits(m: Mem) {
    m.top <= m.size < m.reserved
  }

  function Avail(m: Mem): (r: nat)
    requires Fits(m)
    ensures m.top + r == m.size
  {
    m.size - m.top
  }

  /** The two-spare-block policy: always more than twice what is filled plus one block. */
  function CalcMem(top: nat, block: nat): (r: nat)
    requires block > 0
    ensures 2 * top + block < r <= 2 * top + 2 * block
  {
    var blocks := (top + top) / block;
    assert (blocks + 2) * block == blocks * block + 2 * block;
    assert top + top == blocks * block + (top + top) % block;
    (blocks + 2) * block
  }

  /** It is a whole number of blocks, which with its bounds leaves one number. */
  lemma CalcMemIsBlocks(top: nat, block: nat, n: nat)
    requires block > 0
    ensures CalcMem(top, block) == n * block <==> 2 * top + block < n * block <= 2 * top + 2 * block
  {
    var k := (top + top) / block + 2;
    assert CalcMem(top, block) == k * block;
    if n < k {
      assert n * block <= (k - 1) * block == k * block - block by { Multiples(n, k - 1, block); }
    } else if n > k {
      assert n * block >= (k + 1) * block == k * block + block by { Multiples(k + 1, n, block); }
    }
  }

  lemma Multiples(a: nat, b: nat, block: nat)
    requires a <= b
    ensures a * block <= b * block
  {
  }

  function Initial(): (m: Mem)
    ensures Fits(m)
  {
    Mem(0, 0, CalcMem(0, BASIC_BLOCK))
  }

  /** Allocating more room happens when the reserve cannot hold `n` more bytes and one to spare. */
  predicate Reallocates(m: Mem, n: nat)
    requires Fits(m)
  {
    m.size <= MAX_SIZE && n >= Avail(m) && m.reserved - m.top <= n
  }

  /** `None` is the overflow exception, thrown before anything changes.  The invariant makes
      the block size handed to the policy positive whenever the policy is asked. */
  function Release(m: Mem, n: nat): (r: Option<Mem>)
    requires Fits(m)
    ensures r.None? <==> m.size > MAX_SIZE
    ensures r.Some? ==> Fits(r.value) && r.value.top == m.top
    ensures r.Some? ==> Avail(r.value) >= n && r.value.size >= m.size && r.value.reserved >= m.reserved
    ensures r.Some? ==> (r.value.reserved > m.reserved <==> Reallocates(m, n))
  {
    if m.size > MAX_SIZE then None
    else if n < Avail(m) then Some(m)
    else Some(Mem(m.top, m.top + n, if m.reserved - m.top <= n then CalcMem(m.top, n) else m.reserved))
  }

  /** Just the room that is asked for, unless there is more already; and a larger reserve, more than twice
      what will then be filled and at most one request beyond, when the old one cannot hold it. */
  lemma ReleaseRoom(m: Mem, n: nat)
    requires Fits(m) && Release(m, n).Some?
    ensures var r := Release(m, n).value;
            && Avail(r) == (if n < Avail(m) then Avail(m) else n)
            && if n >= Avail(m) && m.top + n >= m.reserved then 2 * m.top + n < r.reserved <= 2 * (m.top + n)
               else r.reserved == m.reserved
  {
    hide CalcMem;
  }

  /** Bytes beyond what may be written are refused. */
  function Accept(m: Mem, n: nat): (r: Mem)
    requires Fits(m)
    ensures Fits(r) && r.size == m.size && r.reserved == m.reserved
  {
    if n > Avail(m) then m else m.(top := m.top + n)
  }

  function Reset(m: Mem, soft: bool): (r: Mem)
    requires Fits(m)
    ensures Fits(r)
  {
    Mem(0, 0, if soft then m.reserved else CalcMem(0, BASIC_BLOCK))
  }

  /** Empty again; a soft reset keeps the reserve, a hard one is as new. */
  lemma ResetIsEmpty(m: Mem, soft: bool)
    requires Fits(m)
    ensures var r := Reset(m, soft);
            && r.top == 0 && Avail(r) == 0
            && if soft then r.reserved == m.reserved else r == Initial()
  {
    hide CalcMem;
  }

  /** The outcome of an operation that may throw, and the state it leaves behind. */
  datatype Outcome = Outcome(mem: Mem, ok: bool)

  function Attempt(m: Mem, r: Option<Mem>): Outcome {
    match r case None => Outcome(m, false) case Some(m') => Outcome(m', true)
  }

  function Write(m: Mem, n: nat): (r: Outcome)
    requires Fits(m)
    ensures Fits(r.mem) && (r.ok <==> m.size <= MAX_SIZE)
    ensures r.ok ==> r.mem.top == m.top + n
  {
    match Release(m, n)
    case None => Outcome(m, false)
    case Some(m') => Outcome(Accept(m', n), true)
  }

  /** Compaction keeps the `pending` unparsed bytes; the test is "more than 10 per cent". */
  predicate Compacts(top: nat, pending: nat) {
    0 < pending && pending * 100 <= 10 * top
  }

  function MemReduce(m: Mem, pending: nat): (r: Outcome)
    requires Fits(m) && pending <= m.top
    ensures Fits(r.mem)
    ensures r.mem.top == if pending == 0 || Compacts(m.top, pending) then pending else m.top
  {
    if pending == 0 then Outcome(Reset(m, false), true)
    else if !Compacts(m.top, pending) then Outcome(m, true)
    else
      var w := Write(Reset(m, false), pending);
      Attempt(w.mem, Release(w.mem, Avail(m)))
  }

  /** With nothing pending the buffer is as new; with more than a tenth of it pending nothing happens;
      otherwise just the pending bytes are left, with the free room there was.  It throws exactly when
      it compacts more than the overflow limit. */
  lemma MemReduceOutcome(m: Mem, pending: nat)
    requires Fits(m) && pending <= m.top
    ensures MemReduce(m, pending).ok <==> !(Compacts(m.top, pending) && pending > MAX_SIZE)
    ensures pending == 0 ==> MemReduce(m, pending) == Outcome(Initial(), true)
    ensures 0 < pending && 10 * pending > m.top ==> MemReduce(m, pending) == Outcome(m, true)
    ensures var r := MemReduce(m, pending);
            0 < pending && 10 * pending <= m.top && r.ok ==> r.mem.top == pending && Avail(r.mem) == Avail(m)
  {
    if Compacts(m.top, pending) {
      hide CalcMem;
      var w := Write(Reset(m, false), pending).mem;
      assert w.top == w.size == pending;
    }
  }

  // ---------------------------------------------------------------- every run

  datatype Op = DoRelease(n: nat) | DoAccept(n: nat) | DoWrite(n: nat) | DoReset(soft: bool) | DoMemReduce(pending: nat)

  predicate Legal(m: Mem, op: Op) {
    op.DoMemReduce? ==> op.pending <= m.top
  }

  function Step(m: Mem, op: Op): (r: Mem)
    requires Fits(m) && Legal(m, op)
    ensures Fits(r)
  {
    match op
    case DoRelease(n) => Attempt(m, Release(m, n)).mem
    case DoAccept(n) => Accept(m, n)
    case DoWrite(n) => Write(m, n).mem
    case DoReset(soft) => Reset(m, soft)
    case DoMemReduce(pending) => MemReduce(m, pending).mem
  }

  /** Running stops short at an operation that is not legal. */
  function Run(m: Mem, ops: seq<Op>): (r: Mem)
    requires Fits(m)
    ensures Fits(r)
    decreases |ops|
  {
    if ops == [] || !Legal(m, ops[0]) then m else Run(Step(m, ops[0]), ops[1..])
  }

  predicate Modest(op: Op, limit: nat) {
    (op.DoRelease? || op.DoAccept? || op.DoWrite?) ==> op.n <= limit
  }

  predicate Small(m: Mem, limit: nat) {
    m.size <= MAX_SIZE + limit && m.reserved <= 2 * (MAX_SIZE + limit)
  }

  /** The overflow guard bounds the buffer: with requests of at most `limit` bytes the reserve
      never exceeds twice (80 MB plus one request), so 64-bit sizes never wrap. */
  lemma {:induction false} RunIsBounded(m: Mem, ops: seq<Op>, limit: nat)
    requires Fits(m) && Small(m, limit)
    requires forall i :: 0 <= i < |ops| ==> Modest(ops[i], limit)
    ensures Small(Run(m, ops), limit)
    decreases |ops|
  {
    hide Step, Small;
    if ops != [] && Legal(m, ops[0]) {
      assert Modest(ops[0], limit);
      StepIsBounded(m, ops[0], limit);
      RunIsBounded(Step(m, ops[0]), ops[1..], limit);
    }
  }

  lemma StepIsBounded(m: Mem, op: Op, limit: nat)
    requires Fits(m) && Legal(m, op) && Small(m, limit) && Modest(op, limit)
    ensures Small(Step(m, op), limit)
  {
    match op {
      case DoMemReduce(pending) => MemReduceIsBounded(m, pending, limit);
      case _ =>
    }
  }

  lemma ReleaseIsBounded(m: Mem, n: nat)
    requires Fits(m)
    ensures Release(m, n).Some? ==>
              var r := Release(m, n).value;
              && (r.size == m.size || r.size == m.top + n)
              && (r.reserved == m.reserved || r.reserved <= 2 * (m.top + n))
  {
    hide CalcMem;
  }

  lemma MemReduceIsBounded(m: Mem, pending: nat, limit: nat)
    requires Fits(m) && pending <= m.top && Small(m, limit)
    ensures Small(MemReduce(m, pending).mem, limit)
  {
    hide Release, CalcMem, Compacts;
    if pending > 0 && Compacts(m.top, pending) {
      var w := Write(Reset(m, false), pending).mem;
      ReleaseIsBounded(Reset(m, false), pending);
      ReleaseIsBounded(w, Avail(m));
    }
  }

  // ---------------------------------------------------------------- amortised growth

  /** A reader that always asks for the same `s` bytes and then accepts what arrived. */
  datatype ReadOp = Ask | Arrive(n: nat)

  function ReadStep(m: Mem, s: nat, op: ReadOp): (r: Mem)
    requires Fits(m)
    ensures Fits(r)
  {
    match op
    case Ask => Attempt(m, Release(m, s)).mem
    case Arrive(n) => Accept(m, n)
  }

  /** How many bytes were filled at each reallocation, that is, how many it copied. */
  function Copies(m: Mem, s: nat, ops: seq<ReadOp>): seq<nat>
    requires Fits(m)
    decreases |ops|
  {
    if ops == [] then []
    else (if ops[0].Ask? && Reallocates(m, s) then [m.top] else []) + Copies(ReadStep(m, s, ops[0]), s, ops[1..])
  }

  predicate MoreThanDoubles(g: seq<nat>) {
    forall i :: 0 < i < |g| ==> g[i] > 2 * g[i - 1]
  }

  function Sum(g: seq<nat>): nat {
    if g == [] then 0 else Sum(g[..|g| - 1]) + g[|g| - 1]
  }

  /** A reallocation leaves room for twice what is filled and one request more; nothing else
      changes the reserve. */
  lemma ReserveAfter(m: Mem, s: nat, op: ReadOp)
    requires Fits(m) && s > 0
    ensures var m' := ReadStep(m, s, op);
            if op.Ask? && Reallocates(m, s) then m.top + s >= m.reserved && m'.reserved > 2 * m.top + s
            else m'.reserved == m.reserved
  {
    hide CalcMem;
  }

  lemma DoublesInFront(t: nat, g: seq<nat>)
    requires MoreThanDoubles(g) && (g != [] ==> g[0] > 2 * t)
    ensures MoreThanDoubles([t] + g)
  {
    forall i | 0 < i < |g| + 1 ensures ([t] + g)[i] > 2 * ([t] + g)[i - 1] {
      if i > 1 {
        assert g[i - 1] > 2 * g[i - 1 - 1];
      }
    }
  }

  /** Between two reallocations the filled part more than doubles; the next reallocation is not
      due before the reserve is used up to the last block. */
  lemma {:induction false} CopiesMoreThanDouble(m: Mem, s: nat, ops: seq<ReadOp>)
    requires Fits(m) && s > 0
    ensures MoreThanDoubles(Copies(m, s, ops))
    ensures Copies(m, s, ops) != [] ==> Copies(m, s, ops)[0] + s >= m.reserved
    decreases |ops|
  {
    hide ReadStep, Reallocates, MoreThanDoubles;
    if ops == [] {
      NothingCopied();
    } else {
      var m' := ReadStep(m, s, ops[0]);
      ReserveAfter(m, s, ops[0]);
      CopiesMoreThanDouble(m', s, ops[1..]);
      var later := Copies(m', s, ops[1..]);
      if ops[0].Ask? && Reallocates(m, s) {
        DoublesInFront(m.top, later);
      } else {
        assert [] + later == later;
      }
    }
  }

  lemma NothingCopied()
    ensures MoreThanDoubles([])
  {
  }

  lemma {:induction false} DoublingSum(g: seq<nat>)
    requires MoreThanDoubles(g) && g != []
    ensures Sum(g) <= 2 * g[|g| - 1]
    decreases |g|
  {
    if |g| > 1 {
      DoublingSum(g[..|g| - 1]);
      assert g[|g| - 1] > 2 * g[|g| - 2];
    } else {
      assert g[..0] == [];
    }
  }

  /** Growing a buffer copies, over any run, at most twice what was filled at its last
      reallocation. */
  lemma AmortisedGrowth(s: nat, ops: seq<ReadOp>)
    requires s > 0
    ensures var g := Copies(Initial(), s, ops); g != [] ==> Sum(g) <= 2 * g[|g| - 1]
  {
    CopiesMoreThanDouble(Initial(), s, ops);
    if Copies(Initial(), s, ops) != [] {
      DoublingSum(Copies(Initial(), s, ops));
    }
  }
}
