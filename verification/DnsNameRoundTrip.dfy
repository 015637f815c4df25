/** When a written domain name reads back: exactly when each of its labels has 1 to 191 bytes. */
module DnsNameRoundTrip {
  import BigEndian
  import opened Bytes
  import opened Tokens
  import opened DnsNames

  /** The bytes `w` stand at `c` in the packet. */
  predicate Holds(p: bytes, c: nat, w: bytes) {
    c + |w| <= |p| && p[c..c + |w|] == w
  }

  predicate Sized(ls: seq<bytes>, lo: nat, hi: nat) {
    forall i :: 0 <= i < |ls| ==> lo <= |ls[i]| <= hi
  }

  /** What a caller can check before writing: labels that are neither empty nor so long that the
      length byte is cut off or looks like a pointer. */
  predicate Readable(name: bytes) {
    Sized(Split(name, DOT), 1, 191)
  }

  lemma HoldsPrefix(p: bytes, c: nat, w: bytes, v: bytes)
    requires Holds(p, c, w) && v <= w
    ensures Holds(p, c, v)
  {
    assert p[c..c + |v|] == p[c..c + |w|][..|v|];
  }

  lemma HoldsSuffix(p: bytes, c: nat, v: bytes, u: bytes)
    requires Holds(p, c, v + u)
    ensures Holds(p, c + |v|, u)
  {
    var w := v + u;
    assert p[c + |v|..c + |w|] == p[c..c + |w|][|v|..];
    assert w[|v|..] == u;
  }

  /** Where the reader stands after `k` labels it finds the next one. */
  lemma LabelPlaced(p: bytes, c: nat, ls: seq<bytes>, k: nat)
    requires Holds(p, c, EncodeLabels(ls)) && k < |ls|
    ensures Holds(p, c + |EncodeLabels(ls[..k])|, LabelBytes(ls[k]))
    ensures |EncodeLabels(ls[..k + 1])| == |EncodeLabels(ls[..k])| + 1 + |ls[k]|
  {
    hide EncodeLabels;
    EncodePrefix(ls, k + 1);
    HoldsPrefix(p, c, EncodeLabels(ls), EncodeLabels(ls[..k + 1]));
    assert ls[..k + 1] == ls[..k] + [ls[k]];
    EncodeSnoc(ls[..k], ls[k]);
    HoldsSuffix(p, c, EncodeLabels(ls[..k]), LabelBytes(ls[k]));
  }

  lemma OneLabel(got: seq<bytes>, p: bytes, c: nat, l: bytes, fuel: nat)
    requires Holds(p, c, LabelBytes(l)) && 1 <= |l| <= 191
    ensures LabelsOnto(got, p, c, fuel + 1) == LabelsOnto(got + [l], p, c + 1 + |l|, fuel)
    ensures NameEnd(p, c) == NameEnd(p, c + 1 + |l|)
  {
    PlacedLabel(p, c, l);
    HoldsFits(p, c, LabelBytes(l));
    hide Holds, LabelBytes, Target;
    LabelStep(got, p, c, fuel);
  }

  lemma LabelStep(got: seq<bytes>, p: bytes, c: nat, fuel: nat)
    requires c < |p| && 1 <= p[c] <= 191 && c + 1 + p[c] <= |p|
    ensures LabelsOnto(got, p, c, fuel + 1) == LabelsOnto(got + [p[c + 1..c + 1 + p[c]]], p, c + 1 + p[c], fuel)
    ensures NameEnd(p, c) == NameEnd(p, c + 1 + p[c])
  {
    hide Target;
  }

  lemma PlacedLabel(p: bytes, c: nat, l: bytes)
    requires Holds(p, c, LabelBytes(l))
    ensures p[c] == |l| % 256 && p[c + 1..c + 1 + |l|] == l
  {
    var w := p[c..c + 1 + |l|];
    assert w[0] == p[c] && w[1..] == l;
    assert w[1..] == p[c + 1..c + 1 + |l|];
  }

  lemma NoLabels()
    ensures EncodeLabels([]) == []
  {
  }

  lemma HoldsFits(p: bytes, c: nat, w: bytes)
    requires Holds(p, c, w)
    ensures c + |w| <= |p|
  {
  }

  /** Good labels are read back one by one. */
  lemma {:induction false} ReadRun(p: bytes, c: nat, ls: seq<bytes>, i: nat, fuel: nat)
    requires Holds(p, c, EncodeLabels(ls)) && i <= |ls| && Sized(ls[..i], 1, 191)
    ensures LabelsOnto([], p, c, fuel + i) == LabelsOnto(ls[..i], p, c + |EncodeLabels(ls[..i])|, fuel)
    ensures c + |EncodeLabels(ls[..i])| <= |p|
    ensures NameEnd(p, c) == NameEnd(p, c + |EncodeLabels(ls[..i])|)
    decreases i
  {
    hide LabelsOnto, NameEnd, LabelBytes, EncodeLabels, Holds;
    HoldsFits(p, c, EncodeLabels(ls));
    if i == 0 {
      NoLabels();
      assert ls[..0] == [];
    } else {
      assert ls[..i - 1] == ls[..i][..i - 1] && ls[..i][i - 1] == ls[i - 1];
      ReadRun(p, c, ls, i - 1, fuel + 1);
      LabelPlaced(p, c, ls, i - 1);
      HoldsFits(p, c + |EncodeLabels(ls[..i - 1])|, LabelBytes(ls[i - 1]));
      OneLabel(ls[..i - 1], p, c + |EncodeLabels(ls[..i - 1])|, ls[i - 1], fuel);
      assert ls[..i] == ls[..i - 1] + [ls[i - 1]];
    }
  }

  /** A name whose labels are readable reads back, wherever it stands in a packet. */
  lemma GoodNameReads(p: bytes, c: nat, name: bytes)
    requires Holds(p, c, EncodeName(name)) && Readable(name)
    ensures ReadName(p, c) == Some(name)
    ensures NameEnd(p, c) == c + |EncodeName(name)|
  {
    hide Split, EncodeLabels;
    var ls := Split(name, DOT);
    assert ls[..|ls|] == ls;
    HoldsPrefix(p, c, EncodeName(name), EncodeLabels(ls));
    HoldsSuffix(p, c, EncodeLabels(ls), [0]);
    var e := c + |EncodeLabels(ls)|;
    assert p[e] == p[e..e + 1][0] == 0;
    ReadRun(p, c, ls, |ls|, 1);
    LabelsAre(p, c, 1 + |ls|);
    JoinSplit(name, DOT);
  }

  // ---------------------------------------------------------------- pointers

  const TWO_HIGH: nat := 0xC000

  lemma PointerBytes(o: nat)
    requires o < 16384
    ensures BigEndian.Digits(TWO_HIGH + o, 2) == [192 + o / 256, o % 256]
    ensures Target(192 + o / 256, o % 256) == o
  {
    var hi, lo: byte := 192 + o / 256, o % 256;
    BigEndian.ValueOfTwo(hi, lo);
    BigEndian.DigitsOfValue([hi, lo]);
  }

  /** A pointer sends the reader to the offset on the wire, with what it has read before. */
  lemma PointerFollowed(got: seq<bytes>, p: bytes, c: nat, o: nat, fuel: nat)
    requires o < 16384 && Holds(p, c, BigEndian.Digits(TWO_HIGH + o, 2))
    ensures LabelsOnto(got, p, c, fuel + 1) == LabelsOnto(got, p, o, fuel)
    ensures c + 2 <= |p| && NameEnd(p, c) == c + 2
  {
    PointerBytes(o);
    assert p[c] == p[c..c + 2][0] && p[c + 1] == p[c..c + 2][1];
    hide LabelsOnto, NameEnd, Target, BigEndian.Digits;
    PointerStep(got, p, c, fuel);
  }

  lemma PointerStep(got: seq<bytes>, p: bytes, c: nat, fuel: nat)
    requires c + 1 < |p| && p[c] >= 192
    ensures LabelsOnto(got, p, c, fuel + 1) == LabelsOnto(got, p, Target(p[c], p[c + 1]), fuel)
    ensures NameEnd(p, c) == c + 2
  {
  }

  /** Labels followed by a pointer to `o` read as those labels and the ones at `o`, whatever the offset
      and whichever way it points, and the reader then stands just past the pointer. */
  lemma CompressedReads(p: bytes, c: nat, ls: seq<bytes>, o: nat)
    requires o < 16384 && Sized(ls, 1, 191)
    requires Holds(p, c, EncodeLabels(ls) + BigEndian.Digits(TWO_HIGH + o, 2))
    ensures NameEnd(p, c) == c + |EncodeLabels(ls)| + 2 <= |p|
    ensures Halts(p, c) <==> Halts(p, o)
    ensures Halts(p, o) ==> Labels(p, c) == ls + Labels(p, o)
  {
    hide EncodeLabels, Holds, LabelsOnto, BigEndian.Digits, NameEnd, Halts, Labels;
    var w := EncodeLabels(ls);
    var e := c + |w|;
    HoldsPrefix(p, c, w + BigEndian.Digits(TWO_HIGH + o, 2), w);
    HoldsSuffix(p, c, w, BigEndian.Digits(TWO_HIGH + o, 2));
    assert ls[..|ls|] == ls;
    if Halts(p, o) {
      CompressedHalts(p, c, ls, o);
    }
    if Halts(p, c) {
      PointerHalts(p, c, ls, o);
    }
    ReadRun(p, c, ls, |ls|, 0);
    PointerFollowed([], p, e, o, 0);
  }

  lemma CompressedHalts(p: bytes, c: nat, ls: seq<bytes>, o: nat)
    requires o < 16384 && Sized(ls, 1, 191) && Halts(p, o)
    requires Holds(p, c, EncodeLabels(ls)) && Holds(p, c + |EncodeLabels(ls)|, BigEndian.Digits(TWO_HIGH + o, 2))
    ensures Halts(p, c) && Labels(p, c) == ls + Labels(p, o)
  {
    hide EncodeLabels, Holds, LabelsOnto, BigEndian.Digits, NameEnd, Halts;
    var k := Fuel(p, o);
    assert ls[..|ls|] == ls;
    ReadRun(p, c, ls, |ls|, k + 1);
    PointerFollowed(ls, p, c + |EncodeLabels(ls)|, o, k);
    LabelsKeep(ls, p, o, k);
    LabelsAre(p, c, k + 1 + |ls|);
  }

  lemma PointerHalts(p: bytes, c: nat, ls: seq<bytes>, o: nat)
    requires o < 16384 && Sized(ls, 1, 191) && Halts(p, c)
    requires Holds(p, c, EncodeLabels(ls)) && Holds(p, c + |EncodeLabels(ls)|, BigEndian.Digits(TWO_HIGH + o, 2))
    ensures Halts(p, o)
  {
    hide EncodeLabels, Holds, LabelsOnto, BigEndian.Digits, NameEnd, Halts;
    var k := Fuel(p, c);
    assert ls[..|ls|] == ls;
    MoreFuel([], p, c, k, k + 1 + |ls|);
    ReadRun(p, c, ls, |ls|, k + 1);
    PointerFollowed(ls, p, c + |EncodeLabels(ls)|, o, k);
    LabelsKeep(ls, p, o, k);
    LabelsAre(p, o, k);
  }

  /** A pointer of any offset reads as the name it points to. */
  lemma PointerReads(p: bytes, c: nat, o: nat)
    requires o < 16384 && Holds(p, c, BigEndian.Digits(TWO_HIGH + o, 2))
    ensures ReadName(p, c) == ReadName(p, o)
    ensures NameEnd(p, c) == c + 2 <= |p|
  {
    hide LabelsOnto, BigEndian.Digits, NameEnd, Halts, Labels;
    NoLabels();
    var w := BigEndian.Digits(TWO_HIGH + o, 2);
    assert [] + w == w;
    CompressedReads(p, c, [], o);
    if Halts(p, o) {
      assert [] + Labels(p, o) == Labels(p, o);
    }
  }

  // ---------------------------------------------------------------- the other direction

  /** Whatever is read, its labels have 1 to 191 bytes. */
  lemma {:induction false} LabelsAreSized(got: seq<bytes>, p: bytes, c: nat, fuel: nat)
    requires LabelsOnto(got, p, c, fuel).Some? && Sized(got, 1, 191)
    ensures Sized(LabelsOnto(got, p, c, fuel).value, 1, 191)
    decreases fuel
  {
    if p[c] == 0 {
    } else if IsPointer(p[c]) {
      LabelsAreSized(got, p, Target(p[c], p[c + 1]), fuel - 1);
    } else {
      LabelsAreSized(got + [p[c + 1..c + 1 + p[c]]], p, c + 1 + p[c], fuel - 1);
    }
  }

  lemma {:induction false} TokensFit(s: bytes, d: byte)
    ensures Sized(Split(s, d), 0, |s|)
  {
    if s != [] {
      TokensFit(s[..|s| - 1], d);
    }
  }

  /** Joining pieces makes no token longer than a piece. */
  lemma {:induction false} JoinedTokensFit(ls: seq<bytes>, d: byte, m: nat)
    requires ls != [] && Sized(ls, 0, m)
    ensures Sized(Split(Join(ls, d), d), 0, m)
    decreases |ls|
  {
    hide Split;
    var init, last := ls[..|ls| - 1], ls[|ls| - 1];
    TokensFit(last, d);
    if init == [] {
      assert ls == [last];
    } else {
      JoinedTokensFit(init, d, m);
      SplitConcat(Join(init, d), last, d);
    }
  }

  /** Fewer labels make a shorter name. */
  lemma FewerIsShorter(ls: seq<bytes>, i: nat)
    requires 0 < i < |ls|
    ensures |Join(ls[..i], DOT)| < |Join(ls, DOT)|
  {
    hide Join, EncodeLabels;
    EncodedLength(ls[..i]);
    EncodedLength(ls);
    EncodePrefix(ls, i + 1);
    assert ls[..i + 1] == ls[..i] + [ls[i]];
    EncodeSnoc(ls[..i], ls[i]);
  }

  /** An empty label ends the name early. */
  lemma EmptyLabelStops(p: bytes, c: nat, ls: seq<bytes>, i: nat)
    requires Holds(p, c, EncodeLabels(ls)) && i < |ls| && Sized(ls[..i], 1, 191) && ls[i] == []
    ensures Halts(p, c) && Labels(p, c) == ls[..i]
  {
    hide EncodeLabels, LabelsOnto, NameEnd, Halts, Labels;
    var e := c + |EncodeLabels(ls[..i])|;
    ReadRun(p, c, ls, i, 1);
    LabelPlaced(p, c, ls, i);
    PlacedLabel(p, e, ls[i]);
    ZeroStops(ls[..i], p, e);
    LabelsAre(p, c, 1 + i);
  }

  lemma ZeroStops(got: seq<bytes>, p: bytes, c: nat)
    requires c < |p| && p[c] == 0
    ensures LabelsOnto(got, p, c, 1) == Some(got)
  {
  }

  lemma FirstEmpty(ls: seq<bytes>, m: nat) returns (i: nat)
    requires Sized(ls, 0, m) && !Sized(ls, 1, m)
    ensures i < |ls| && ls[i] == [] && Sized(ls[..i], 1, m)
  {
    i := 0;
    while ls[i] != []
      invariant i < |ls| && Sized(ls[..i], 1, m)
      invariant exists k :: i <= k < |ls| && ls[k] == []
      decreases |ls| - i
    {
      i := i + 1;
    }
  }

  /** Exactly the readable names survive being written and read. */
  lemma NameRoundTrip(p: bytes, c: nat, name: bytes)
    requires Holds(p, c, EncodeName(name))
    ensures ReadName(p, c) == Some(name) <==> Readable(name)
  {
    hide Split, EncodeLabels, Join, Holds;
    if Readable(name) {
      GoodNameReads(p, c, name);
    } else if ReadName(p, c) == Some(name) {
      var ls, read := Split(name, DOT), Labels(p, c);
      LabelsAreSized([], p, c, Fuel(p, c));
      JoinedTokensFit(read, DOT, 191);
      assert Sized(ls, 0, 191);
      var i := FirstEmpty(ls, 191);
      HoldsPrefix(p, c, EncodeName(name), EncodeLabels(ls));
      EmptyLabelStops(p, c, ls, i);
      JoinSplit(name, DOT);
      FewerIsShorter(ls, i);
      assert false;
    }
  }

  /** A name with labels of 1 to 63 bytes is written in the format of RFC 1035. */
  lemma {:induction false} WrittenConforms(p: bytes, start: nat, c: nat, name: bytes, i: nat)
    requires Holds(p, c, EncodeName(name)) && Sized(Split(name, DOT), 1, 63) && i <= |Split(name, DOT)|
    ensures Encodes(p, start, c + |EncodeLabels(Split(name, DOT)[..i])|, Split(name, DOT)[i..])
    decreases |Split(name, DOT)| - i
  {
    hide Split, EncodeLabels, LabelBytes, Holds, Encodes;
    var ls := Split(name, DOT);
    HoldsPrefix(p, c, EncodeName(name), EncodeLabels(ls));
    var e := c + |EncodeLabels(ls[..i])|;
    if i == |ls| {
      assert ls[..i] == ls && ls[i..] == [];
      HoldsSuffix(p, c, EncodeLabels(ls), [0]);
      EndConforms(p, start, e);
    } else {
      LabelPlaced(p, c, ls, i);
      WrittenConforms(p, start, c, name, i + 1);
      assert ls[i..] == [ls[i]] + ls[i + 1..];
      LabelConforms(p, start, e, ls[i], ls[i + 1..]);
    }
  }

  lemma EndConforms(p: bytes, start: nat, c: nat)
    requires Holds(p, c, [0])
    ensures Encodes(p, start, c, [])
  {
    assert p[c] == p[c..c + 1][0] == 0;
  }

  lemma LabelConforms(p: bytes, start: nat, c: nat, l: bytes, ls: seq<bytes>)
    requires Holds(p, c, LabelBytes(l)) && 1 <= |l| <= 63 && Encodes(p, start, c + 1 + |l|, ls)
    ensures Encodes(p, start, c, [l] + ls)
  {
    PlacedLabel(p, c, l);
    assert ([l] + ls)[1..] == ls;
  }
}
