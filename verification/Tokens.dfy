/** `hstrings`: splitting strings at a delimiter byte and picking parts by number.

    The reference meaning of a split is `Split`; the methods scan with positions as the program
    does and are proved to agree with it. */
module Tokens {
  import opened Bytes

  /** All tokens, empty ones included, one byte at a time. */
  function Split(s: bytes, d: byte): (r: seq<bytes>)
    ensures r != []
  {
    if s == [] then [[]]
    else
      var r, c := Split(s[..|s| - 1], d), s[|s| - 1];
      if c == d then r + [[]] else r[..|r| - 1] + [r[|r| - 1] + [c]]
  }

  function Join(ls: seq<bytes>, d: byte): bytes {
    if ls == [] then []
    else if |ls| == 1 then ls[0]
    else Join(ls[..|ls| - 1], d) + [d] + ls[|ls| - 1]
  }

  predicate NoDelimiter(ls: seq<bytes>, d: byte) {
    forall i :: 0 <= i < |ls| ==> d !in ls[i]
  }

  lemma JoinSnoc(ls: seq<bytes>, l: bytes, d: byte)
    requires ls != []
    ensures Join(ls + [l], d) == Join(ls, d) + [d] + l
  {
    assert (ls + [l])[..|ls|] == ls;
  }

  lemma JoinExtendLast(ls: seq<bytes>, c: byte, d: byte)
    requires ls != []
    ensures Join(LastGrown(ls, [c]), d) == Join(ls, d) + [c]
  {
    var init, last := ls[..|ls| - 1], ls[|ls| - 1];
    if init == [] {
      assert ls == [last];
    } else {
      JoinSnoc(init, last + [c], d);
      JoinSnoc(init, last, d);
      assert ls == init + [last];
      assert Join(init, d) + [d] + (last + [c]) == Join(init, d) + [d] + last + [c];
    }
  }

  lemma NoDelimiterSnoc(ls: seq<bytes>, d: byte)
    requires NoDelimiter(ls, d)
    ensures NoDelimiter(ls + [[]], d)
  {
  }

  lemma NoDelimiterGrown(ls: seq<bytes>, c: byte, d: byte)
    requires ls != [] && NoDelimiter(ls, d) && c != d
    ensures NoDelimiter(LastGrown(ls, [c]), d)
  {
  }

  /** Joining the tokens gives the string back, and no token contains the delimiter. */
  lemma {:induction false} JoinSplit(s: bytes, d: byte)
    ensures Join(Split(s, d), d) == s
    ensures NoDelimiter(Split(s, d), d)
  {
    if s == [] {
      assert Split([], d) == [[]];
    } else {
      hide Split, Join, NoDelimiter, LastGrown;
      var s', c := s[..|s| - 1], s[|s| - 1];
      JoinSplit(s', d);
      assert s == s' + [c];
      SplitSnoc(s', c, d);
      if c == d {
        JoinSnoc(Split(s', d), [], d);
        NoDelimiterSnoc(Split(s', d), d);
        assert Join(Split(s', d), d) + [d] + [] == s' + [c];
      } else {
        JoinExtendLast(Split(s', d), c, d);
        NoDelimiterGrown(Split(s', d), c, d);
      }
    }
  }

  /** The same tokens with more bytes in the last one. */
  function LastGrown(ls: seq<bytes>, t: bytes): seq<bytes>
    requires ls != []
  {
    ls[..|ls| - 1] + [ls[|ls| - 1] + t]
  }

  lemma LastGrownNil(ls: seq<bytes>)
    requires ls != []
    ensures LastGrown(ls, []) == ls
  {
    assert ls[|ls| - 1] + [] == ls[|ls| - 1];
  }

  lemma LastGrownTwice(ls: seq<bytes>, t: bytes, u: bytes)
    requires ls != []
    ensures LastGrown(LastGrown(ls, t), u) == LastGrown(ls, t + u)
  {
    var l := ls[|ls| - 1];
    assert (l + t) + u == l + (t + u);
  }

  lemma SplitSnoc(s: bytes, c: byte, d: byte)
    ensures Split(s + [c], d) == if c == d then Split(s, d) + [[]] else LastGrown(Split(s, d), [c])
  {
    assert (s + [c])[..|s|] == s;
  }

  /** Bytes other than the delimiter only lengthen the last token. */
  lemma {:induction false} SplitRun(s: bytes, t: bytes, d: byte)
    requires d !in t
    ensures Split(s + t, d) == LastGrown(Split(s, d), t)
    decreases |t|
  {
    hide Split, LastGrown;
    if t == [] {
      assert s + t == s;
      LastGrownNil(Split(s, d));
    } else {
      var t', c := t[..|t| - 1], t[|t| - 1];
      SplitRun(s, t', d);
      assert t == t' + [c] && c in t;
      assert s + t == (s + t') + [c];
      SplitSnoc(s + t', c, d);
      LastGrownTwice(Split(s, d), t', [c]);
    }
  }

  /** Tokens without the delimiter survive joining: the split is the only way back. */
  lemma {:induction false} SplitJoin(ls: seq<bytes>, d: byte)
    requires ls != [] && NoDelimiter(ls, d)
    ensures Split(Join(ls, d), d) == ls
    decreases |ls|
  {
    var init, last := ls[..|ls| - 1], ls[|ls| - 1];
    assert ls == init + [last];
    if init == [] {
      SplitRun([], last, d);
      assert [] + last == last;
    } else {
      SplitJoin(init, d);
      var j := Join(init, d);
      SplitSnoc(j, d, d);
      SplitRun(j + [d], last, d);
      assert (init + [[]])[..|init|] == init;
      assert [] + last == last;
    }
  }

  /** The tokens of two strings with a delimiter between them. */
  lemma {:induction false} SplitConcat(a: bytes, b: bytes, d: byte)
    ensures Split(a + [d] + b, d) == Split(a, d) + Split(b, d)
    decreases |b|
  {
    if b == [] {
      assert a + [d] + b == a + [d];
      SplitSnoc(a, d, d);
    } else {
      var b', c := b[..|b| - 1], b[|b| - 1];
      SplitConcat(a, b', d);
      assert a + [d] + b == (a + [d] + b') + [c];
      assert b == b' + [c];
      SplitSnoc(a + [d] + b', c, d);
      SplitSnoc(b', c, d);
      GrowBehind(Split(a, d), Split(b', d), [c]);
    }
  }

  lemma GrowBehind(a: seq<bytes>, b: seq<bytes>, t: bytes)
    requires b != []
    ensures LastGrown(a + b, t) == a + LastGrown(b, t)
    ensures (a + b) + [[]] == a + (b + [[]])
  {
    assert (a + b)[..|a + b| - 1] == a + b[..|b| - 1];
  }

  // ---------------------------------------------------------------- split

  /** `str.find(delim, from)`; the length of the string when there is none. */
  method FindByte(s: bytes, d: byte, from: nat) returns (j: nat)
    requires from <= |s|
    ensures from <= j <= |s| && d !in s[from..j] && (j < |s| ==> s[j] == d)
  {
    j := from;
    while j < |s| && s[j] != d
      invariant from <= j <= |s| && d !in s[from..j]
    {
      assert s[from..j + 1] == s[from..j] + [s[j]];
      j := j + 1;
    }
  }

  function Nonempty(ls: seq<bytes>): seq<bytes> {
    if ls == [] then []
    else Nonempty(ls[..|ls| - 1]) + if ls[|ls| - 1] == [] then [] else [ls[|ls| - 1]]
  }

  /** What `split` leaves out when told to remove empty tokens: all but a last one. */
  function Kept(ls: seq<bytes>, removeEmpty: bool): seq<bytes>
    requires ls != []
  {
    if removeEmpty then Nonempty(ls[..|ls| - 1]) + [ls[|ls| - 1]] else ls
  }

  function Pushed(ls: seq<bytes>, removeEmpty: bool): seq<bytes> {
    if removeEmpty then Nonempty(ls) else ls
  }

  method SplitInto(str: bytes, delim: byte, removeEmpty: bool) returns (res: seq<bytes>)
    ensures res == Kept(Split(str, delim), removeEmpty)
  {
    hide Split, Nonempty;
    res := [];
    var i := 0;
    ghost var ls: seq<bytes> := [];
    SplitNothing(str, delim);
    while true
      invariant 0 <= i <= |str|
      invariant Split(str[..i], delim) == ls + [[]]
      invariant res == Pushed(ls, removeEmpty)
      decreases |str| - i
    {
      var j := FindByte(str, delim, i);
      PieceEnds(str, i, j, delim, ls);
      PushedSnoc(ls, str[i..j], removeEmpty);
      if !removeEmpty || j == |str| || i != j {
        res := res + [str[i..j]];
      }
      if j == |str| {
        assert str[..j] == str;
        KeptSnoc(ls, str[i..j], removeEmpty);
        break;
      }
      ls := ls + [str[i..j]];
      i := j + 1;
    }
  }

  lemma PieceEnds(s: bytes, i: nat, j: nat, d: byte, ls: seq<bytes>)
    requires i <= j <= |s| && d !in s[i..j] && Split(s[..i], d) == ls + [[]]
    ensures Split(s[..j], d) == ls + [s[i..j]]
    ensures j < |s| && s[j] == d ==> Split(s[..j + 1], d) == (ls + [s[i..j]]) + [[]]
  {
    hide Split;
    SplitRun(s[..i], s[i..j], d);
    assert s[..i] + s[i..j] == s[..j];
    assert (ls + [[]])[..|ls|] == ls && [] + s[i..j] == s[i..j];
    if j < |s| && s[j] == d {
      SplitSnoc(s[..j], d, d);
      assert s[..j + 1] == s[..j] + [d];
    }
  }

  lemma SplitNothing(s: bytes, d: byte)
    ensures Split(s[..0], d) == [] + [[]] && Nonempty([]) == []
  {
    assert s[..0] == [];
  }

  lemma PushedSnoc(ls: seq<bytes>, l: bytes, removeEmpty: bool)
    ensures Pushed(ls + [l], removeEmpty) == Pushed(ls, removeEmpty) + if removeEmpty && l == [] then [] else [l]
  {
    NonemptySnoc(ls, l);
  }

  lemma KeptSnoc(ls: seq<bytes>, l: bytes, removeEmpty: bool)
    ensures Kept(ls + [l], removeEmpty) == Pushed(ls, removeEmpty) + [l]
  {
    assert (ls + [l])[..|ls|] == ls;
  }

  lemma NonemptySnoc(ls: seq<bytes>, l: bytes)
    ensures Nonempty(ls + [l]) == Nonempty(ls) + if l == [] then [] else [l]
  {
    assert (ls + [l])[..|ls|] == ls;
  }

  // ---------------------------------------------------------------- parts by number

  /** The non-empty tokens. */
  function Words(s: bytes, d: byte): seq<bytes> {
    Nonempty(Split(s, d))
  }

  lemma {:induction false} NonemptyMembers(ls: seq<bytes>)
    ensures forall w :: w in Nonempty(ls) ==> w in ls
  {
    if ls != [] {
      NonemptyMembers(ls[..|ls| - 1]);
    }
  }

  /** No word contains the delimiter. */
  lemma WordHasNoDelimiter(s: bytes, d: byte, k: nat)
    requires k < |Words(s, d)|
    ensures d !in Words(s, d)[k]
  {
    hide Split, Nonempty;
    JoinSplit(s, d);
    NonemptyMembers(Split(s, d));
    assert Words(s, d)[k] in Words(s, d);
  }

  lemma NoSplit(s: bytes, d: byte)
    requires d !in s
    ensures Split(s, d) == [s]
  {
    SplitJoin([s], d);
  }

  lemma WordsDelimiter(s: bytes, d: byte)
    ensures Words(s + [d], d) == Words(s, d)
  {
    SplitSnoc(s, d, d);
    NonemptySnoc(Split(s, d), []);
  }

  /** Skipping delimiters adds no word. */
  lemma {:induction false} WordsSkip(s: bytes, d: byte, a: nat, b: nat)
    requires a <= b <= |s| && forall k :: a <= k < b ==> s[k] == d
    ensures Words(s[..b], d) == Words(s[..a], d)
    decreases b
  {
    if a < b {
      WordsSkip(s, d, a, b - 1);
      assert s[..b] == s[..b - 1] + [d];
      WordsDelimiter(s[..b - 1], d);
    }
  }

  lemma NoWords(s: bytes, d: byte)
    ensures Words(s[..0], d) == []
  {
    assert s[..0] == [];
    NonemptySnoc([], []);
  }

  /** A position where a word may start. */
  predicate AtStart(s: bytes, d: byte, p: nat) {
    p <= |s| && (p == 0 || s[p - 1] == d)
  }

  lemma StartsEmpty(s: bytes, d: byte, p: nat)
    requires AtStart(s, d, p)
    ensures var r := Split(s[..p], d); r[|r| - 1] == []
  {
    if p > 0 {
      assert s[..p] == s[..p - 1] + [d];
      SplitSnoc(s[..p - 1], d, d);
    }
  }

  /** A maximal run of other bytes is one more word. */
  lemma WordsRun(s: bytes, d: byte, lo: nat, hi: nat)
    requires AtStart(s, d, lo) && lo < hi <= |s| && d !in s[lo..hi]
    ensures Words(s[..hi], d) == Words(s[..lo], d) + [s[lo..hi]]
  {
    hide Split, Nonempty;
    var r, w := Split(s[..lo], d), s[lo..hi];
    StartsEmpty(s, d, lo);
    SplitRun(s[..lo], w, d);
    assert s[..hi] == s[..lo] + w;
    assert [] + w == w;
    assert r == r[..|r| - 1] + [[]];
    NonemptySnoc(r[..|r| - 1], w);
    NonemptySnoc(r[..|r| - 1], []);
  }

  function Init(ls: seq<bytes>): seq<bytes>
    requires ls != []
  {
    ls[..|ls| - 1]
  }

  lemma {:induction false} WordsDone(s: bytes, d: byte, p: nat, q: nat)
    requires p < q <= |s| && s[p] == d
    ensures Words(s[..p], d) <= Nonempty(Init(Split(s[..q], d)))
    decreases q
  {
    var r, c := Split(s[..q - 1], d), s[q - 1];
    assert s[..q] == s[..q - 1] + [c];
    SplitSnoc(s[..q - 1], c, d);
    if p + 1 < q {
      WordsDone(s, d, p, q - 1);
      if c == d {
        assert Init(r + [[]]) == r && r == Init(r) + [r[|r| - 1]];
        NonemptySnoc(Init(r), r[|r| - 1]);
      } else {
        assert Init(Init(r) + [r[|r| - 1] + [c]]) == Init(r);
      }
    } else {
      assert Init(r + [[]]) == r;
    }
  }

  /** Words completed at a boundary are the first words of the whole string. */
  lemma WordsStay(s: bytes, d: byte, p: nat)
    requires p <= |s| && (p < |s| ==> s[p] == d)
    ensures Words(s[..p], d) <= Words(s, d)
  {
    assert s[..|s|] == s;
    if p < |s| {
      WordsDone(s, d, p, |s|);
      var r := Split(s, d);
      assert r == Init(r) + [r[|r| - 1]];
      NonemptySnoc(Init(r), r[|r| - 1]);
    }
  }

  /** `pcoord`: where the word number `pindex` begins and ends. */
  method PCoord(text: bytes, delim: byte, pindex: nat) returns (found: bool, posBeg: nat, posEnd: nat)
    ensures found <==> pindex < |Words(text, delim)|
    ensures found ==> posBeg < posEnd <= |text| && text[posBeg..posEnd] == Words(text, delim)[pindex]
    ensures found ==> AtStart(text, delim, posBeg) && (posEnd < |text| ==> text[posEnd] == delim)
    ensures found ==> |Words(text[..posBeg], delim)| == pindex
  {
    hide Words;
    posBeg, posEnd := 0, 0;
    NoWords(text, delim);
    var i := 0;
    while i <= pindex
      invariant 0 <= i <= pindex + 1
      invariant posEnd <= |text| && (i == 0 ==> posEnd == 0)
      invariant i > 0 && posEnd < |text| ==> text[posEnd] == delim
      invariant |Words(text[..posEnd], delim)| == i && Words(text[..posEnd], delim) <= Words(text, delim)
      invariant i > 0 ==> posBeg < posEnd && AtStart(text, delim, posBeg)
      invariant i > 0 ==> text[posBeg..posEnd] == Words(text, delim)[i - 1] && |Words(text[..posBeg], delim)| == i - 1
    {
      posBeg := FindOther(text, delim, posEnd);
      WordsSkip(text, delim, posEnd, posBeg);
      if posBeg == |text| {
        assert text[..posBeg] == text;
        return false, posBeg, posBeg;
      }
      var next := FindByte(text, delim, posBeg);
      assert text[posBeg] in text[posBeg..posBeg + 1];
      WordsRun(text, delim, posBeg, next);
      WordsStay(text, delim, next);
      assert Words(text[..next], delim)[i] == text[posBeg..next];
      posEnd := next;
      i := i + 1;
    }
    found := true;
  }

  /** `find_first_not_of`; the length of the string when there is none. */
  method FindOther(s: bytes, d: byte, from: nat) returns (j: nat)
    requires from <= |s|
    ensures from <= j <= |s| && (forall k :: from <= k < j ==> s[k] == d) && (j < |s| ==> s[j] != d)
  {
    j := from;
    while j < |s| && s[j] == d
      invariant from <= j <= |s| && (forall k :: from <= k < j ==> s[k] == d)
    {
      j := j + 1;
    }
  }

  /** `get_part`: the word number `pindex`, or `None` (and the result string untouched). */
  method GetPart(text: bytes, delim: byte, pindex: nat) returns (r: Option<bytes>)
    ensures r == PartOf(Words(text, delim), pindex)
  {
    var found, b, e := PCoord(text, delim, pindex);
    r := if found then Some(text[b..e]) else None;
  }

  function PartOf(ws: seq<bytes>, k: nat): Option<bytes> {
    if k < |ws| then Some(ws[k]) else None
  }

  /** `get_part_reverse`: scanning backwards from the end, the word number `pindex` counted from
      the last one. */
  method GetPartReverse(text: bytes, delim: byte, pindex: nat) returns (r: Option<bytes>)
    ensures var ws := Words(text, delim); r == if pindex < |ws| then PartOf(ws, |ws| - 1 - pindex) else None
  {
    hide Words;
    var b, e := |text|, |text|;
    ghost var n := |Words(text, delim)|;
    assert text[..|text|] == text;
    var i := 0;
    while i <= pindex
      invariant 0 <= i <= pindex + 1 && i <= n && 0 <= e <= b <= |text|
      invariant i > 0 ==> AtStart(text, delim, e)
      invariant Words(text[..e], delim) == Words(text, delim)[..n - i]
      invariant i > 0 ==> text[e..b] == Words(text, delim)[n - i]
    {
      b := LastOther(text, delim, e);
      WordsSkip(text, delim, b, e);
      if b == 0 {
        NoWords(text, delim);
        return None;
      }
      var start := LastDelimiter(text, delim, b);
      WordsRun(text, delim, start, b);
      assert Words(text[..start], delim) == Words(text, delim)[..n - i][..n - i - 1];
      e := start;
      i := i + 1;
    }
    r := Some(text[e..b]);
  }

  /** The end of the last byte before `to` that is not the delimiter; 0 when there is none. */
  method LastOther(s: bytes, d: byte, to: nat) returns (j: nat)
    requires to <= |s|
    ensures j <= to && (forall k :: j <= k < to ==> s[k] == d) && (j > 0 ==> s[j - 1] != d)
  {
    j := to;
    while j > 0 && s[j - 1] == d
      invariant j <= to && (forall k :: j <= k < to ==> s[k] == d)
    {
      j := j - 1;
    }
  }

  /** The end of the last delimiter before `to`; 0 when there is none. */
  method LastDelimiter(s: bytes, d: byte, to: nat) returns (j: nat)
    requires 0 < to <= |s| && s[to - 1] != d
    ensures j < to && AtStart(s, d, j) && d !in s[j..to]
  {
    j := to - 1;
    while j > 0 && s[j - 1] != d
      invariant j < to && d !in s[j..to]
    {
      assert s[j - 1..to] == [s[j - 1]] + s[j..to];
      j := j - 1;
    }
  }

  // ---------------------------------------------------------------- runs of one byte

  /** Each run of `c` shortened to a single one. */
  function Collapse(s: bytes, c: byte): (r: bytes)
    ensures |r| <= |s| && (s != [] ==> r != [] && r[|r| - 1] == s[|s| - 1])
  {
    if |s| <= 1 then s
    else
      var r := Collapse(s[..|s| - 1], c);
      if s[|s| - 1] == c && s[|s| - 2] == c then r else r + [s[|s| - 1]]
  }

  predicate NoPair(s: bytes, c: byte) {
    forall i :: 0 < i < |s| ==> !(s[i] == c && s[i - 1] == c)
  }

  lemma {:induction false} CollapseHasNoPair(s: bytes, c: byte)
    ensures NoPair(Collapse(s, c), c)
  {
    if |s| > 1 {
      CollapseHasNoPair(s[..|s| - 1], c);
    }
  }

  lemma {:induction false} CollapseFixes(s: bytes, c: byte)
    requires NoPair(s, c)
    ensures Collapse(s, c) == s
  {
    if |s| > 1 {
      CollapseFixes(s[..|s| - 1], c);
      assert s == s[..|s| - 1] + [s[|s| - 1]];
      assert !(s[|s| - 1] == c && s[|s| - 1 - 1] == c);
    }
  }

  /** Collapsing changes exactly the strings that have a pair, and never twice. */
  lemma CollapseIdempotent(s: bytes, c: byte)
    ensures Collapse(Collapse(s, c), c) == Collapse(s, c)
    ensures Collapse(s, c) == s <==> NoPair(s, c)
  {
    CollapseHasNoPair(s, c);
    CollapseFixes(Collapse(s, c), c);
    if NoPair(s, c) {
      CollapseFixes(s, c);
    }
  }

  lemma CollapseSnoc(s: bytes, n: nat, c: byte)
    requires 0 < n < |s|
    ensures Collapse(s[..n + 1], c) == Collapse(s[..n], c) + if s[n] == c && s[n - 1] == c then [] else [s[n]]
  {
    assert s[..n + 1][..n] == s[..n];
  }

  /** `clear_dup_chars`, in place: `n` is the length left after the erase.  The test reads the
      byte before the cursor from the string being overwritten; it is still the original one. */
  method ClearDupChars(str: array<byte>, symb: byte) returns (n: nat)
    requires str.Length > 0
    modifies str
    ensures n <= str.Length && str[..n] == Collapse(old(str[..]), symb)
  {
    ghost var s := str[..];
    var res, cur := 1, 1;
    assert s[..1] == [s[0]] == str[..1];
    while cur != str.Length
      invariant 1 <= res <= cur <= str.Length
      invariant str[cur - 1] == s[cur - 1]
      invariant forall k :: cur <= k < str.Length ==> str[k] == s[k]
      invariant str[..res] == Collapse(s[..cur], symb)
    {
      hide Collapse;
      CollapseSnoc(s, cur, symb);
      if !(str[cur] == symb && str[cur] == str[cur - 1]) {
        str[res] := str[cur];
        res := res + 1;
      }
      cur := cur + 1;
    }
    assert s[..cur] == s;
    n := res;
  }
}
