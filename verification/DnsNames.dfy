/** Domain names on the wire: section 3.1 and section 4.1.4 of RFC 1035, as `write_step_qdn_to_buff`
    writes them and `buff_step_read_qdn` reads them. */
module DnsNames {
  import BigEndian
  import opened Bytes
  import Tokens

  const DOT: byte := 46

  // ---------------------------------------------------------------- writing

  /** Each label behind its length byte; the length is what a `char` keeps of it. */
  function LabelBytes(l: bytes): (r: bytes)
    ensures |r| == |l| + 1
  {
    [(|l| % 256) as byte] + l
  }

  function EncodeLabels(ls: seq<bytes>): bytes {
    if ls == [] then [] else EncodeLabels(ls[..|ls| - 1]) + LabelBytes(ls[|ls| - 1])
  }

  function EncodeName(name: bytes): (r: bytes)
    ensures |r| > 0
  {
    EncodeLabels(Tokens.Split(name, DOT)) + [0]
  }

  lemma EncodeSnoc(ls: seq<bytes>, l: bytes)
    ensures EncodeLabels(ls + [l]) == EncodeLabels(ls) + LabelBytes(l)
  {
    assert (ls + [l])[..|ls|] == ls;
  }

  /** The encoding of the first labels is the beginning of the encoding. */
  lemma {:induction false} EncodePrefix(ls: seq<bytes>, i: nat)
    requires i <= |ls|
    ensures EncodeLabels(ls[..i]) <= EncodeLabels(ls)
    decreases |ls|
  {
    if i < |ls| {
      EncodePrefix(ls[..|ls| - 1], i);
      assert ls[..|ls| - 1][..i] == ls[..i];
    } else {
      assert ls[..i] == ls;
    }
  }

  /** The encoded name is one byte longer than its text with a final dot. */
  lemma {:induction false} EncodedLength(ls: seq<bytes>)
    requires ls != []
    ensures |EncodeLabels(ls)| == |Tokens.Join(ls, DOT)| + 1
  {
    var init := ls[..|ls| - 1];
    if init != [] {
      EncodedLength(init);
    }
  }

  method WriteName(dname: bytes, buf: array<byte>, cursor: nat) returns (next: nat)
    requires cursor + |EncodeName(dname)| <= buf.Length
    modifies buf
    ensures next == cursor + |EncodeName(dname)|
    ensures buf[..] == Patched(old(buf[..]), cursor, EncodeName(dname))
  {
    hide Tokens.Split, Tokens.Join, LabelBytes, EncodeLabels, Patched;
    next := cursor;
    var parts := Tokens.SplitInto(dname, DOT, false);
    assert parts[..0] == [] && EncodeLabels([]) == [] by { NothingEncoded(); }
    PatchedNothing(buf[..], cursor);
    for i := 0 to |parts|
      invariant next == cursor + |EncodeLabels(parts[..i])| <= cursor + |EncodeLabels(parts)|
      invariant buf[..] == Patched(old(buf[..]), cursor, EncodeLabels(parts[..i]))
    {
      EncodePrefix(parts, i + 1);
      assert parts[..i + 1] == parts[..i] + [parts[i]];
      EncodeSnoc(parts[..i], parts[i]);
      PatchedTwice(old(buf[..]), cursor, EncodeLabels(parts[..i]), LabelBytes(parts[i]));
      next := WriteLabel(buf, next, parts[i]);
    }
    assert parts[..|parts|] == parts;
    PatchedTwice(old(buf[..]), cursor, EncodeLabels(parts), [0]);
    PatchedByte(buf[..], next, 0);
    buf[next] := 0;
    next := next + 1;
  }

  lemma NothingEncoded()
    ensures EncodeLabels([]) == []
  {
  }

  lemma PatchedByte(b: bytes, at: nat, w: byte)
    requires at < |b|
    ensures Patched(b, at, [w]) == b[at := w]
  {
  }

  method WriteLabel(buf: array<byte>, cursor: nat, part: bytes) returns (next: nat)
    requires cursor + 1 + |part| <= buf.Length
    modifies buf
    ensures next == cursor + |LabelBytes(part)|
    ensures buf[..] == Patched(old(buf[..]), cursor, LabelBytes(part))
  {
    buf[cursor] := |part| % 256;
    next := cursor + 1;
    forall i | 0 <= i < |part| {
      buf[next + i] := part[i];
    }
    next := next + |part|;
  }

  // ---------------------------------------------------------------- reading

  /** A length byte whose two high bits are set begins a pointer. */
  predicate IsPointer(b: byte) {
    b >= 192
  }

  function Target(hi: byte, lo: byte): nat {
    (hi % 64) * 256 + lo
  }

  /** The offset on the wire is a number of fourteen bits. */
  lemma TargetIs(hi: byte, lo: byte)
    requires hi >= 192
    ensures Target(hi, lo) == BigEndian.Value([hi - 192, lo])
  {
    BigEndian.ValueOfTwo(hi - 192, lo);
  }

  /** The labels met from `c` on, after those already in `got`.  `None` when the reader leaves the
      packet or has not come to a final zero after `fuel` steps. */
  function LabelsOnto(got: seq<bytes>, p: bytes, c: nat, fuel: nat): Option<seq<bytes>>
    decreases fuel
  {
    if fuel == 0 || c >= |p| then None
    else if p[c] == 0 then Some(got)
    else if IsPointer(p[c]) then
      if c + 1 < |p| then LabelsOnto(got, p, Target(p[c], p[c + 1]), fuel - 1) else None
    else if c + 1 + p[c] <= |p| then LabelsOnto(got + [p[c + 1..c + 1 + p[c]]], p, c + 1 + p[c], fuel - 1)
    else None
  }

  /** The offset just past the first pointer, or past the final zero when there is none. */
  function NameEnd(p: bytes, c: nat): (r: nat)
    requires c <= |p|
    ensures c <= r <= |p| + 1
    decreases |p| - c
  {
    if c == |p| then c
    else if p[c] == 0 then c + 1
    else if IsPointer(p[c]) then c + 2
    else if c + 1 + p[c] <= |p| then NameEnd(p, c + 1 + p[c])
    else |p|
  }

  /** The reader comes to an end inside the packet. */
  ghost predicate Halts(p: bytes, c: nat) {
    exists fuel: nat :: LabelsOnto([], p, c, fuel).Some?
  }

  ghost function Fuel(p: bytes, c: nat): (fuel: nat)
    requires Halts(p, c)
    ensures LabelsOnto([], p, c, fuel).Some?
  {
    var fuel: nat :| LabelsOnto([], p, c, fuel).Some?; fuel
  }

  ghost function Labels(p: bytes, c: nat): seq<bytes>
    requires Halts(p, c)
  {
    LabelsOnto([], p, c, Fuel(p, c)).value
  }

  /** The name the reader returns into an empty string.  Undefined where the reader does not
      halt inside the packet, and for the root name, whose missing final dot it cannot trim. */
  ghost function ReadName(p: bytes, c: nat): Option<bytes> {
    if Halts(p, c) && Labels(p, c) != [] then Some(Tokens.Join(Labels(p, c), DOT)) else None
  }

  lemma {:induction false} MoreFuel(got: seq<bytes>, p: bytes, c: nat, fuel: nat, fuel': nat)
    requires LabelsOnto(got, p, c, fuel).Some? && fuel <= fuel'
    ensures LabelsOnto(got, p, c, fuel') == LabelsOnto(got, p, c, fuel)
    decreases fuel
  {
    if p[c] == 0 {
    } else if IsPointer(p[c]) {
      MoreFuel(got, p, Target(p[c], p[c + 1]), fuel - 1, fuel' - 1);
    } else {
      MoreFuel(got + [p[c + 1..c + 1 + p[c]]], p, c + 1 + p[c], fuel - 1, fuel' - 1);
    }
  }

  /** The labels do not depend on the fuel. */
  lemma LabelsAre(p: bytes, c: nat, fuel: nat)
    requires LabelsOnto([], p, c, fuel).Some?
    ensures Halts(p, c) && Labels(p, c) == LabelsOnto([], p, c, fuel).value
  {
    var k := Fuel(p, c);
    if fuel <= k {
      MoreFuel([], p, c, fuel, k);
    } else {
      MoreFuel([], p, c, k, fuel);
    }
  }

  /** The text the reader has accumulated: each label with its dot. */
  function Dotted(ls: seq<bytes>): bytes {
    if ls == [] then [] else Dotted(ls[..|ls| - 1]) + ls[|ls| - 1] + [DOT]
  }

  lemma DottedSnoc(ls: seq<bytes>, l: bytes)
    ensures Dotted(ls + [l]) == Dotted(ls) + l + [DOT]
  {
    assert (ls + [l])[..|ls|] == ls;
  }

  lemma {:induction false} DottedIsJoin(ls: seq<bytes>)
    requires ls != []
    ensures Dotted(ls) == Tokens.Join(ls, DOT) + [DOT]
  {
    var init, last := ls[..|ls| - 1], ls[|ls| - 1];
    if init != [] {
      DottedIsJoin(init);
      assert ls == init + [last];
    } else {
      assert ls == [last];
    }
  }

  /** What was read first stays first. */
  lemma {:induction false} LabelsKeep(got: seq<bytes>, p: bytes, c: nat, fuel: nat)
    ensures LabelsOnto(got, p, c, fuel)
         == match LabelsOnto([], p, c, fuel) case None => None case Some(ls) => Some(got + ls)
    decreases fuel
  {
    if fuel == 0 || c >= |p| {
    } else if p[c] == 0 {
      assert got + [] == got;
    } else if IsPointer(p[c]) {
      if c + 1 < |p| {
        LabelsKeep(got, p, Target(p[c], p[c + 1]), fuel - 1);
      }
    } else if c + 1 + p[c] <= |p| {
      var l, c' := p[c + 1..c + 1 + p[c]], c + 1 + p[c];
      LabelsKeep(got + [l], p, c', fuel - 1);
      LabelsKeep([l], p, c', fuel - 1);
      match LabelsOnto([], p, c', fuel - 1) {
        case None =>
        case Some(ls) => assert got + [l] + ls == got + ([l] + ls);
      }
      assert [] + [l] == [l];
    }
  }

  /** `buff_step_read_qdn`, with the labels already in `result` as ghost argument. */
  method ReadNameStep(pkg: array<byte>, cursor: nat, result: bytes, ghost got: seq<bytes>, ghost fuel: nat)
    returns (next: nat, name: bytes)
    requires LabelsOnto(got, pkg[..], cursor, fuel).Some? && LabelsOnto(got, pkg[..], cursor, fuel).value != []
    requires result == Dotted(got)
    ensures name == Tokens.Join(LabelsOnto(got, pkg[..], cursor, fuel).value, DOT)
    ensures next == NameEnd(pkg[..], cursor)
    decreases fuel
  {
    if pkg[cursor] == 0 {
      DottedIsJoin(got);
      return cursor + 1, result[..|result| - 1];
    }
    if !IsPointer(pkg[cursor]) {
      var secLn := pkg[cursor];
      ghost var text := pkg[..][cursor + 1..cursor + 1 + secLn];
      name, next := result, cursor + 1;
      assert text[..0] == [] && result + [] == result;
      for i := 0 to secLn
        invariant next == cursor + 1 + i && name == result + text[..i]
      {
        assert text[..i + 1] == text[..i] + [text[i]];
        name := name + [pkg[next]];
        next := next + 1;
      }
      assert text[..secLn] == text;
      DottedSnoc(got, text);
      next, name := ReadNameStep(pkg, next, name + [DOT], got + [text], fuel - 1);
    } else {
      var target := SectionOffset(pkg, cursor);
      var inner;
      inner, name := ReadNameStep(pkg, target, result, got, fuel - 1);
      next := cursor + 2;
    }
  }

  /** The offset in a pointer: two bytes with the two high bits cleared. */
  method SectionOffset(pkg: array<byte>, cursor: nat) returns (target: nat)
    requires cursor + 2 <= pkg.Length
    ensures target == Target(pkg[cursor], pkg[cursor + 1])
  {
    var offset := new byte[2];
    offset[0], offset[1] := pkg[cursor] % 64, pkg[cursor + 1];
    target := BigEndian.BuffRead(offset, 0, 2);
    assert offset[0..2] == [pkg[cursor] % 64, pkg[cursor + 1]];
    BigEndian.ValueOfTwo(pkg[cursor] % 64, pkg[cursor + 1]);
  }

  /** Reading into an empty string, as every caller does. */
  method ReadNameAt(pkg: array<byte>, cursor: nat) returns (next: nat, name: bytes)
    requires ReadName(pkg[..], cursor).Some?
    ensures Some(name) == ReadName(pkg[..], cursor) && next == NameEnd(pkg[..], cursor)
  {
    ghost var fuel := Fuel(pkg[..], cursor);
    next, name := ReadNameStep(pkg, cursor, [], [], fuel);
  }

  // ---------------------------------------------------------------- compression

  /** The wire format of section 4.1.4 of RFC 1035: labels of 1 to 63 bytes, ended by a zero or by
      a pointer to a place before the current run of labels began at `start`.  A pointer is two bytes,
      two ones and the offset as a number of fourteen bits. */
  ghost predicate Encodes(p: bytes, start: nat, c: nat, ls: seq<bytes>)
    decreases start, |p| - c
  {
    && c < |p|
    && if p[c] == 0 then ls == []
       else if p[c] >= 192 then
         && c + 1 < |p|
         && var offset := BigEndian.Value([p[c] - 192, p[c + 1]]);
            offset < start && Encodes(p, offset, offset, ls)
       else
         && 1 <= p[c] <= 63 && c + 1 + p[c] <= |p|
         && ls != [] && ls[0] == p[c + 1..c + 1 + p[c]]
         && Encodes(p, start, c + 1 + p[c], ls[1..])
  }

  lemma {:induction false} EncodedHalts(got: seq<bytes>, p: bytes, start: nat, c: nat, ls: seq<bytes>)
    returns (fuel: nat)
    requires Encodes(p, start, c, ls)
    ensures LabelsOnto(got, p, c, fuel) == Some(got + ls)
    decreases start, |p| - c
  {
    hide BigEndian.Value, Target;
    if p[c] == 0 {
      assert got + ls == got;
      fuel := 1;
    } else if IsPointer(p[c]) {
      TargetIs(p[c], p[c + 1]);
      var t := BigEndian.Value([p[c] - 192, p[c + 1]]);
      var k := EncodedHalts(got, p, t, t, ls);
      fuel := k + 1;
    } else {
      assert got + [ls[0]] + ls[1..] == got + ls;
      var k := EncodedHalts(got + [ls[0]], p, start, c + 1 + p[c], ls[1..]);
      fuel := k + 1;
    }
  }

  /** Decompression keeps the meaning: wherever and however compressed a name is encoded, the
      reader halts and returns its labels joined by dots. */
  lemma Decompression(p: bytes, c: nat, ls: seq<bytes>)
    requires Encodes(p, c, c, ls) && ls != []
    ensures ReadName(p, c) == Some(Tokens.Join(ls, DOT))
  {
    var fuel := EncodedHalts([], p, c, c, ls);
    assert [] + ls == ls;
    LabelsAre(p, c, fuel);
  }
}
