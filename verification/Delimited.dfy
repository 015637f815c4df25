/** The reference meaning of "a byte stream cut at a delimiter": the leftmost, non-overlapping
    split.  Nothing here knows about buffers, searches that resume, or chunks.

    A completed piece is named by its `Part`, its offset and its size including the delimiter;
    `Lines` are the texts of the parts without the delimiters. */
module Delimited {
  import opened Bytes

  datatype Part = Part(begin: nat, size: nat)

  /** The delimiter `d` starts at position `i` of `s` and lies wholly inside `s`. */
  predicate OccursAt(d: bytes, s: bytes, i: int) {
    0 <= i && i + |d| <= |s| && forall k :: 0 <= k < |d| ==> s[i + k] == d[k]
  }

  /** The first start position at or after `from`. */
  function Find(d: bytes, s: bytes, from: nat): (r: Option<nat>)
    ensures r.Some? ==> from <= r.value && r.value + |d| <= |s|
    decreases |s| - from
  {
    if from + |d| > |s| then None
    else if OccursAt(d, s, from) then Some(from)
    else Find(d, s, from + 1)
  }

  /** The completed parts of `s` from offset `u` on, after those already in `got`. */
  function PartsOnto(got: seq<Part>, d: bytes, s: bytes, u: nat): seq<Part>
    requires |d| > 0
    decreases |s| - u
  {
    match Find(d, s, u)
    case None => got
    case Some(j) => PartsOnto(got + [Part(u, j + |d| - u)], d, s, j + |d|)
  }

  /** The offset just behind the last completed part. */
  function RestFrom(d: bytes, s: bytes, u: nat): (r: nat)
    requires |d| > 0 && u <= |s|
    ensures u <= r <= |s|
    decreases |s| - u
  {
    match Find(d, s, u)
    case None => u
    case Some(j) => RestFrom(d, s, j + |d|)
  }

  /** Every part lies inside the first `n` bytes and ends with a delimiter of `m` bytes. */
  predicate PartsWithin(ps: seq<Part>, n: nat, m: nat) {
    forall i :: 0 <= i < |ps| ==> m <= ps[i].size && ps[i].begin + ps[i].size <= n
  }

  lemma {:induction false} PartsStayWithin(got: seq<Part>, d: bytes, s: bytes, u: nat)
    requires |d| > 0 && PartsWithin(got, |s|, |d|)
    ensures PartsWithin(PartsOnto(got, d, s, u), |s|, |d|)
    decreases |s| - u
  {
    match Find(d, s, u) {
      case None =>
      case Some(j) => PartsStayWithin(got + [Part(u, j + |d| - u)], d, s, j + |d|);
    }
  }

  /** The texts of parts, delimiters trimmed. */
  function Texts(d: bytes, s: bytes, ps: seq<Part>): (r: seq<bytes>)
    requires PartsWithin(ps, |s|, |d|)
    ensures |r| == |ps|
  {
    seq(|ps|, i requires 0 <= i < |ps| => s[ps[i].begin..ps[i].begin + ps[i].size - |d|])
  }

  /** The pieces of `s` completed from offset `u` on. */
  function LinesFrom(d: bytes, s: bytes, u: nat): seq<bytes>
    requires |d| > 0
  {
    PartsStayWithin([], d, s, u);
    Texts(d, s, PartsOnto([], d, s, u))
  }

  function Lines(d: bytes, s: bytes): seq<bytes>
    requires |d| > 0
  {
    LinesFrom(d, s, 0)
  }

  /** What follows the last completed piece. */
  function Rest(d: bytes, s: bytes): bytes
    requires |d| > 0
  {
    s[RestFrom(d, s, 0)..]
  }

  // ---------------------------------------------------------------- searching

  /** `Find` returns an occurrence with none before it; when it returns none, there is none. */
  lemma {:induction false} FindIsFirst(d: bytes, s: bytes, from: nat)
    ensures Find(d, s, from).Some? ==> OccursAt(d, s, Find(d, s, from).value)
    ensures Find(d, s, from).Some? ==> forall k :: from <= k < Find(d, s, from).value ==> !OccursAt(d, s, k)
    ensures Find(d, s, from).None? ==> forall k :: from <= k ==> !OccursAt(d, s, k)
    decreases |s| - from
  {
    if from + |d| <= |s| && !OccursAt(d, s, from) {
      FindIsFirst(d, s, from + 1);
    }
  }

  lemma FindIs(d: bytes, s: bytes, from: nat, j: nat)
    requires from <= j && OccursAt(d, s, j)
    requires forall k :: from <= k < j ==> !OccursAt(d, s, k)
    ensures Find(d, s, from) == Some(j)
  {
    FindIsFirst(d, s, from);
  }

  /** Behind bytes that do not begin the delimiter, the delimiter is found where it stands. */
  lemma FindBehind(d: bytes, l: bytes)
    requires |d| > 0 && d[0] !in l
    ensures Find(d, l + d, 0) == Some(|l|)
    ensures l != [] ==> !OccursAt(d, l + d, 0)
  {
    hide Find;
    var s := l + d;
    forall k | 0 <= k < |l| ensures !OccursAt(d, s, k) {
      assert s[k] == l[k] && l[k] in l && s[k + 0] == s[k];
    }
    FindIs(d, s, 0, |l|);
  }

  /** A search may resume later if it skips no occurrence. */
  lemma FindResume(d: bytes, s: bytes, u: nat, q: nat)
    requires u <= q
    requires forall k :: u <= k < q ==> !OccursAt(d, s, k)
    ensures Find(d, s, u) == Find(d, s, q)
  {
    FindIsFirst(d, s, u);
    FindIsFirst(d, s, q);
  }

  /** Occurrences of a suffix are the shifted occurrences of the whole. */
  lemma OccursShift(d: bytes, s: bytes, u: nat, k: nat)
    requires u <= |s|
    ensures OccursAt(d, s[u..], k) <==> OccursAt(d, s, u + k)
  {
  }

  /** More bytes at the end leave the occurrences that already fitted as they were. */
  lemma OccursExtend(d: bytes, s: bytes, t: bytes, k: nat)
    requires k + |d| <= |s|
    ensures OccursAt(d, s + t, k) <==> OccursAt(d, s, k)
  {
  }

  /** Searching a suffix is searching the whole from where the suffix begins. */
  lemma FindShift(d: bytes, s: bytes, u: nat, v: nat)
    requires u <= |s|
    ensures Find(d, s, u + v) ==
            match Find(d, s[u..], v) case None => None case Some(j) => Some(u + j)
  {
    hide Find, OccursAt;
    forall k: nat | u <= k ensures OccursAt(d, s, k) <==> OccursAt(d, s[u..], k - u) {
      OccursShift(d, s, u, k - u);
    }
    FindIsFirst(d, s[u..], v);
    match Find(d, s[u..], v) {
      case Some(j) => FindIs(d, s, u + v, u + j);
      case None => FindIsFirst(d, s, u + v);
    }
  }

  /** The first delimiter of a stream stays the first one when the stream grows. */
  lemma FindStable(d: bytes, s: bytes, t: bytes, u: nat)
    requires Find(d, s, u).Some?
    ensures Find(d, s + t, u) == Find(d, s, u)
  {
    hide Find, OccursAt;
    var j := Find(d, s, u).value;
    FindIsFirst(d, s, u);
    forall k: nat | u <= k <= j ensures OccursAt(d, s + t, k) <==> OccursAt(d, s, k) {
      OccursExtend(d, s, t, k);
    }
    FindIs(d, s + t, u, j);
  }

  lemma {:induction false} RestHasNone(d: bytes, s: bytes, u: nat)
    requires |d| > 0 && u <= |s|
    ensures Find(d, s, RestFrom(d, s, u)).None?
    decreases |s| - u
  {
    match Find(d, s, u) {
      case None =>
      case Some(j) => RestHasNone(d, s, j + |d|);
    }
  }

  // ---------------------------------------------------------------- growing streams

  /** Whatever delimiter is found in `s` is found in `S` too, `e` bytes further on. */
  ghost predicate Embeds(d: bytes, s: bytes, S: bytes, e: nat) {
    && e + |s| <= |S|
    && forall v: nat :: Find(d, s, v).Some? ==> Find(d, S, v + e) == Some(Find(d, s, v).value + e)
  }

  lemma NoMoreParts(got: seq<Part>, d: bytes, s: bytes, u: nat)
    requires |d| > 0 && u <= |s| && Find(d, s, u).None?
    ensures PartsOnto(got, d, s, u) == got && RestFrom(d, s, u) == u
  {
  }

  lemma OneMorePart(got: seq<Part>, d: bytes, s: bytes, u: nat, j: nat)
    requires |d| > 0 && u <= |s| && Find(d, s, u) == Some(j)
    ensures PartsOnto(got, d, s, u) == PartsOnto(got + [Part(u, j + |d| - u)], d, s, j + |d|)
    ensures RestFrom(d, s, u) == RestFrom(d, s, j + |d|)
  {
  }

  function Moved(ps: seq<Part>, e: nat): seq<Part> {
    seq(|ps|, i requires 0 <= i < |ps| => ps[i].(begin := ps[i].begin + e))
  }

  lemma MovedSnoc(ps: seq<Part>, p: Part, e: nat)
    ensures Moved(ps + [p], e) == Moved(ps, e) + [Part(p.begin + e, p.size)]
  {
  }

  lemma MovedNil(e: nat)
    ensures Moved([], e) == []
  {
  }

  /** Splitting `S` first does all that splitting `s` does, and goes on from there. */
  lemma {:induction false} PartsEmbedded(got: seq<Part>, d: bytes, s: bytes, S: bytes, e: nat, u: nat)
    requires |d| > 0 && u <= |s| && Embeds(d, s, S, e)
    ensures PartsOnto(Moved(got, e), d, S, u + e)
         == PartsOnto(Moved(PartsOnto(got, d, s, u), e), d, S, RestFrom(d, s, u) + e)
    ensures RestFrom(d, S, u + e) == RestFrom(d, S, RestFrom(d, s, u) + e)
    decreases |s| - u
  {
    hide Find, Moved, PartsOnto, RestFrom;
    match Find(d, s, u) {
      case None =>
        NoMoreParts(got, d, s, u);
      case Some(j) =>
        var p := Part(u, j + |d| - u);
        OneMorePart(got, d, s, u, j);
        OneMorePart(Moved(got, e), d, S, u + e, j + e);
        MovedSnoc(got, p, e);
        PartsEmbedded(got + [p], d, s, S, e, j + |d|);
    }
  }

  /** The parts of a longer stream are those of the shorter one followed by those found from
      where the shorter one left off. */
  lemma PartsAppend(got: seq<Part>, d: bytes, s: bytes, t: bytes, u: nat)
    requires |d| > 0 && u <= |s|
    ensures PartsOnto(got, d, s + t, u) == PartsOnto(PartsOnto(got, d, s, u), d, s + t, RestFrom(d, s, u))
    ensures RestFrom(d, s + t, u) == RestFrom(d, s + t, RestFrom(d, s, u))
  {
    hide Find;
    forall v: nat | Find(d, s, v).Some? ensures Find(d, s + t, v) == Find(d, s, v) {
      FindStable(d, s, t, v);
    }
    PartsEmbedded(got, d, s, s + t, 0, u);
    assert Moved(got, 0) == got;
    assert Moved(PartsOnto(got, d, s, u), 0) == PartsOnto(got, d, s, u);
  }

  /** The parts of a suffix are those of the whole from where the suffix begins. */
  lemma PartsShift(d: bytes, s: bytes, u: nat)
    requires |d| > 0 && u <= |s|
    ensures PartsOnto([], d, s, u) == Moved(PartsOnto([], d, s[u..], 0), u)
    ensures RestFrom(d, s, u) == u + RestFrom(d, s[u..], 0)
  {
    hide Find, PartsOnto, RestFrom, Moved;
    forall v: nat ensures Find(d, s, v + u) ==
                          match Find(d, s[u..], v) case None => None case Some(j) => Some(u + j) {
      FindShift(d, s, u, v);
    }
    PartsEmbedded([], d, s[u..], s, u, 0);
    MovedNil(u);
    var r := RestFrom(d, s[u..], 0);
    RestHasNone(d, s[u..], 0);
    NoMoreParts(Moved(PartsOnto([], d, s[u..], 0), u), d, s, r + u);
  }

  /** Parts that were there before stay in front. */
  lemma {:induction false} PartsOntoPrefix(front: seq<Part>, got: seq<Part>, d: bytes, s: bytes, u: nat)
    requires |d| > 0
    ensures PartsOnto(front + got, d, s, u) == front + PartsOnto(got, d, s, u)
    decreases |s| - u
  {
    match Find(d, s, u) {
      case None =>
      case Some(j) =>
        var p := Part(u, j + |d| - u);
        assert front + got + [p] == front + (got + [p]);
        PartsOntoPrefix(front, got + [p], d, s, j + |d|);
    }
  }

  lemma TextsConcat(d: bytes, s: bytes, ps: seq<Part>, qs: seq<Part>)
    requires PartsWithin(ps, |s|, |d|) && PartsWithin(qs, |s|, |d|)
    ensures Texts(d, s, ps + qs) == Texts(d, s, ps) + Texts(d, s, qs)
  {
  }

  lemma TextsExtend(d: bytes, s: bytes, t: bytes, ps: seq<Part>)
    requires PartsWithin(ps, |s|, |d|)
    ensures Texts(d, s + t, ps) == Texts(d, s, ps)
  {
    forall i | 0 <= i < |ps| ensures Texts(d, s + t, ps)[i] == Texts(d, s, ps)[i] {
      assert (s + t)[ps[i].begin..ps[i].begin + ps[i].size - |d|] == s[ps[i].begin..ps[i].begin + ps[i].size - |d|];
    }
  }

  /** The key fact behind incremental parsing. */
  lemma LinesAppend(d: bytes, s: bytes, t: bytes, u: nat)
    requires |d| > 0 && u <= |s|
    ensures LinesFrom(d, s + t, u) == LinesFrom(d, s, u) + LinesFrom(d, s + t, RestFrom(d, s, u))
    ensures RestFrom(d, s + t, u) == RestFrom(d, s + t, RestFrom(d, s, u))
  {
    var had, r := PartsOnto([], d, s, u), RestFrom(d, s, u);
    PartsAppend([], d, s, t, u);
    PartsOntoPrefix(had, [], d, s + t, r);
    assert had + [] == had;
    PartsStayWithin([], d, s, u);
    PartsStayWithin([], d, s + t, r);
    TextsConcat(d, s + t, had, PartsOnto([], d, s + t, r));
    TextsExtend(d, s, t, had);
  }

  lemma TextsShift(d: bytes, s: bytes, u: nat, ps: seq<Part>)
    requires u <= |s| && PartsWithin(ps, |s[u..]|, |d|)
    ensures PartsWithin(Moved(ps, u), |s|, |d|)
    ensures Texts(d, s, Moved(ps, u)) == Texts(d, s[u..], ps)
  {
    forall i | 0 <= i < |ps| ensures Texts(d, s, Moved(ps, u))[i] == Texts(d, s[u..], ps)[i] {
      SliceShift(s, u, ps[i].begin, ps[i].begin + ps[i].size - |d|);
    }
  }

  /** Dropping a prefix before the point where splitting starts changes nothing. */
  lemma LinesShift(d: bytes, s: bytes, u: nat)
    requires |d| > 0 && u <= |s|
    ensures LinesFrom(d, s, u) == Lines(d, s[u..])
    ensures RestFrom(d, s, u) == u + RestFrom(d, s[u..], 0)
  {
    hide Find, PartsOnto, RestFrom, Moved, Texts;
    PartsShift(d, s, u);
    PartsStayWithin([], d, s[u..], 0);
    TextsShift(d, s, u, PartsOnto([], d, s[u..], 0));
  }

  lemma SliceShift(s: bytes, u: nat, v: nat, j: nat)
    requires v <= j && u + j <= |s|
    ensures s[u..][v..j] == s[u + v..u + j]
  {
  }

  // ---------------------------------------------------------------- what the split means

  /** Pieces put back together, each followed by the delimiter. */
  function Terminated(d: bytes, ls: seq<bytes>): bytes {
    if ls == [] then [] else ls[0] + d + Terminated(d, ls[1..])
  }

  /** In a leftmost split the delimiter that ends a piece is the first one from its start. */
  predicate LeftmostPieces(d: bytes, ls: seq<bytes>) {
    forall i :: 0 <= i < |ls| ==> Find(d, ls[i] + d, 0) == Some(|ls[i]|)
  }

  lemma OccursSlice(d: bytes, s: bytes, j: nat)
    requires OccursAt(d, s, j)
    ensures s[..j + |d|] == s[..j] + d
    ensures s == (s[..j] + d) + s[j + |d|..]
  {
  }

  lemma PieceIsLeftmost(d: bytes, s: bytes, j: nat)
    requires Find(d, s, 0) == Some(j)
    ensures s == (s[..j] + d) + s[j + |d|..]
    ensures Find(d, s[..j] + d, 0) == Some(j)
  {
    hide OccursAt, Find;
    FindIsFirst(d, s, 0);
    OccursSlice(d, s, j);
    FindShorter(d, s[..j] + d, s[j + |d|..], j);
  }

  /** The first delimiter of a stream is also the first one of any beginning that contains it. */
  lemma FindShorter(d: bytes, s: bytes, t: bytes, j: nat)
    requires Find(d, s + t, 0) == Some(j) && j + |d| <= |s|
    ensures Find(d, s, 0) == Some(j)
  {
    hide Find, OccursAt;
    FindIsFirst(d, s + t, 0);
    forall k: nat | k <= j ensures OccursAt(d, s + t, k) <==> OccursAt(d, s, k) {
      OccursExtend(d, s, t, k);
    }
    FindIs(d, s, 0, j);
  }

  /** The next piece, then the pieces of what is left. */
  lemma LinesFromStep(d: bytes, s: bytes, u: nat, j: nat)
    requires |d| > 0 && u <= |s| && Find(d, s, u) == Some(j)
    ensures LinesFrom(d, s, u) == [s[u..j]] + LinesFrom(d, s, j + |d|)
  {
    hide Find, PartsOnto;
    var p, n := Part(u, j + |d| - u), j + |d|;
    assert [] + [p] == [p] && [p] + [] == [p];
    OneMorePart([], d, s, u, j);
    PartsOntoPrefix([p], [], d, s, n);
    PartsStayWithin([], d, s, n);
    TextsConcat(d, s, [p], PartsOnto([], d, s, n));
  }

  lemma LinesStep(d: bytes, s: bytes, j: nat)
    requires |d| > 0 && Find(d, s, 0) == Some(j)
    ensures Lines(d, s) == [s[..j]] + Lines(d, s[j + |d|..])
    ensures Rest(d, s) == Rest(d, s[j + |d|..])
  {
    hide Find, LinesFrom;
    var n := j + |d|;
    LinesFromStep(d, s, 0, j);
    LinesShift(d, s, n);
    OneMorePart([], d, s, 0, j);
    SliceShift(s, n, RestFrom(d, s[n..], 0), |s| - n);
  }

  lemma LinesDone(d: bytes, s: bytes)
    requires |d| > 0 && Find(d, s, 0).None?
    ensures Lines(d, s) == [] && Rest(d, s) == s
  {
  }

  /** The split loses nothing and invents nothing, each piece ends at its first delimiter, and
      the rest has no delimiter ... */
  lemma {:induction false} SplitIsLeftmost(d: bytes, s: bytes)
    requires |d| > 0
    ensures Terminated(d, Lines(d, s)) + Rest(d, s) == s
    ensures LeftmostPieces(d, Lines(d, s)) && Find(d, Rest(d, s), 0).None?
    decreases |s|
  {
    hide Find, Lines, Rest;
    match Find(d, s, 0) {
      case None =>
        LinesDone(d, s);
      case Some(j) =>
        var s' := s[j + |d|..];
        LinesStep(d, s, j);
        PieceIsLeftmost(d, s, j);
        SplitIsLeftmost(d, s');
        TerminatedStep(d, s[..j], Lines(d, s'));
        Regroup(s[..j] + d, Terminated(d, Lines(d, s')), Rest(d, s'));
    }
  }

  lemma TerminatedStep(d: bytes, l: bytes, ls: seq<bytes>)
    ensures Terminated(d, [l] + ls) == (l + d) + Terminated(d, ls)
  {
    assert ([l] + ls)[1..] == ls;
  }

  lemma Regroup(a: bytes, b: bytes, c: bytes)
    ensures (a + b) + c == a + (b + c)
  {
  }

  /** Pieces cut off leftmost in front of any bytes are the first pieces of the whole. */
  lemma {:induction false} LinesOfTerminated(d: bytes, ls: seq<bytes>, t: bytes)
    requires |d| > 0 && LeftmostPieces(d, ls)
    ensures Lines(d, Terminated(d, ls) + t) == ls + Lines(d, t)
    ensures Rest(d, Terminated(d, ls) + t) == Rest(d, t)
    decreases |ls|
  {
    hide Find, Lines, Rest;
    if ls == [] {
      assert Terminated(d, ls) + t == t;
      assert ls + Lines(d, t) == Lines(d, t);
    } else {
      var l, s' := ls[0], Terminated(d, ls[1..]) + t;
      Regroup(l + d, Terminated(d, ls[1..]), t);
      LinesOfTerminated(d, ls[1..], t);
      FindStable(d, l + d, s', 0);
      HeadAndTail(l, d, s');
      LinesStep(d, (l + d) + s', |l|);
      assert [l] + (ls[1..] + Lines(d, t)) == ls + Lines(d, t);
    }
  }

  /** ... and these facts determine it: no other cutting of the same stream has them. */
  lemma SplitUnique(d: bytes, ls: seq<bytes>, rest: bytes)
    requires |d| > 0
    requires LeftmostPieces(d, ls) && Find(d, rest, 0).None?
    ensures Lines(d, Terminated(d, ls) + rest) == ls
    ensures Rest(d, Terminated(d, ls) + rest) == rest
  {
    hide Find, Lines, Rest, LeftmostPieces, Terminated;
    LinesOfTerminated(d, ls, rest);
    LinesDone(d, rest);
  }

  lemma {:induction false} TerminatedSnoc(d: bytes, ls: seq<bytes>, l: bytes)
    ensures Terminated(d, ls + [l]) == Terminated(d, ls) + (l + d)
  {
    if ls == [] {
      assert ls + [l] == [l];
      assert Terminated(d, [l]) == (l + d) + Terminated(d, []);
    } else {
      assert (ls + [l])[1..] == ls[1..] + [l];
      TerminatedSnoc(d, ls[1..], l);
      Regroup(ls[0] + d, Terminated(d, ls[1..]), l + d);
    }
  }

  lemma HeadAndTail(l: bytes, d: bytes, t: bytes)
    ensures ((l + d) + t)[..|l|] == l
    ensures ((l + d) + t)[|l| + |d|..] == t
  {
  }
}
