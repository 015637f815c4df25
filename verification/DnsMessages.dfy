/** DNS messages (section 4.1 of RFC 1035): the request writer and the message parser. */
module DnsMessages {
  import opened Bytes
  import opened Tokens
  import BigEndian
  import opened DnsNames

  type uint16 = x: nat | x < 0x1_0000

  const TYPE_A: uint16 := 1
  const TYPE_PTR: uint16 := 12
  const TYPE_MX: uint16 := 15
  const HEADER_SIZE: nat := 12

  datatype DnsError = NoError | ReqStrErr | ResolvErr | IdMatchErr

  datatype Query = Query(name: bytes, typ: uint16, cls: uint16)

  datatype Answer = Answer(reqName: bytes, typ: nat, cls: nat, ttl: nat, dsize: nat, preference: nat, answer: bytes)

  datatype Request = Request(id: uint16, qCount: uint16, qlist: seq<Query>)

  // ---------------------------------------------------------------- reverse lookup names

  const ARPA: seq<bytes> := [[105, 110, 45, 97, 100, 100, 114], [97, 114, 112, 97]]

  /** The octets of an address in reverse order under in-addr.arpa; empty when there are not four. */
  function ArpaName(ip: bytes): bytes {
    var o := Split(ip, DOT);
    if |o| != 4 then [] else Join([o[3], o[2], o[1], o[0]] + ARPA, DOT)
  }

  lemma ArpaLabels(ip: bytes)
    requires |Split(ip, DOT)| == 4
    ensures var o := Split(ip, DOT); Split(ArpaName(ip), DOT) == [o[3], o[2], o[1], o[0]] + ARPA
  {
    var o := Split(ip, DOT);
    var ls := [o[3], o[2], o[1], o[0]] + ARPA;
    JoinSplit(ip, DOT);
    assert ls[4] == ARPA[0] && ls[5] == ARPA[1];
    SplitJoin(ls, DOT);
  }

  method IpToArpa(ip: bytes) returns (res: bytes)
    ensures res == ArpaName(ip)
  {
    res := [];
    var octets := SplitInto(ip, DOT, false);
    if |octets| != 4 {
      return;
    }
    var i := 4;
    while i > 0
      invariant 0 <= i <= 4
      invariant res == Dotted([octets[3], octets[2], octets[1], octets[0]][..4 - i])
    {
      i := i - 1;
      ghost var rev := [octets[3], octets[2], octets[1], octets[0]];
      DottedSnoc(rev[..3 - i], octets[i]);
      assert rev[..4 - i] == rev[..3 - i] + [octets[i]];
      res := res + octets[i] + [DOT];
    }
    ghost var rev := [octets[3], octets[2], octets[1], octets[0]];
    assert rev[..4] == rev;
    DottedIsJoin(rev);
    JoinSnoc(rev, ARPA[0], DOT);
    JoinSnoc(rev + [ARPA[0]], ARPA[1], DOT);
    assert rev + [ARPA[0]] + [ARPA[1]] == rev + ARPA;
    res := res + [105, 110, 45, 97, 100, 100, 114, 46, 97, 114, 112, 97];
    assert res == Join(rev, DOT) + [DOT] + ARPA[0] + [DOT] + ARPA[1];
  }

  /** The number that decimal digits stand for. */
  function DecimalValue(s: bytes): int {
    if s == [] then 0 else 10 * DecimalValue(s[..|s| - 1]) + (s[|s| - 1] as int - 48)
  }

  /** `std::to_string` of one byte: its decimal digits, without a leading zero. */
  function Decimal(b: byte): (r: bytes)
    ensures DOT !in r && 1 <= |r| <= 3 && forall i :: 0 <= i < |r| ==> 48 <= r[i] <= 57
  {
    if b < 10 then [48 + b]
    else if b < 100 then [48 + b / 10, 48 + b % 10]
    else [48 + b / 100, 48 + b / 10 % 10, 48 + b % 10]
  }

  /** The digits of a byte stand for it, and the first is no zero unless it is the only one. */
  lemma DecimalIs(b: byte)
    ensures DecimalValue(Decimal(b)) == b
    ensures |Decimal(b)| > 1 ==> Decimal(b)[0] != 48
  {
    hide DecimalValue;
    NoDecimal();
    ThreeDigits(b);
    var r := Decimal(b);
    if |r| > 2 {
      DecimalSnoc(r[..2], r[2]);
      assert r == r[..2] + [r[2]];
    }
    if |r| > 1 {
      DecimalSnoc([r[0]], r[1]);
      assert r[..2] == [r[0]] + [r[1]];
    }
    DecimalSnoc([], r[0]);
    assert [] + [r[0]] == [r[0]] && (|r| == 2 ==> r[..2] == r);
  }

  lemma NoDecimal()
    ensures DecimalValue([]) == 0
  {
  }

  lemma ThreeDigits(b: byte)
    ensures b == 100 * (b / 100) + 10 * (b / 10 % 10) + b % 10
  {
    assert b == 10 * (b / 10) + b % 10 && b / 10 == 10 * (b / 100) + b / 10 % 10;
  }

  lemma DecimalSnoc(s: bytes, c: byte)
    ensures DecimalValue(s + [c]) == 10 * DecimalValue(s) + (c as int - 48)
  {
    assert (s + [c])[..|s|] == s;
  }

  function Octets(b: bytes): seq<bytes> {
    seq(|b|, i requires 0 <= i < |b| => Decimal(b[i]))
  }

  /** An IPv4 address in dotted decimal. */
  function DottedIp(b: bytes): bytes {
    Join(Octets(b), DOT)
  }

  method IpStepRead(pkg: array<byte>, cursor: nat) returns (res: bytes)
    requires cursor + 4 <= pkg.Length
    ensures res == DottedIp(pkg[cursor..cursor + 4])
  {
    ghost var b := pkg[cursor..cursor + 4];
    ghost var o := Octets(b);
    res := [];
    for i := 0 to 4
      invariant res == Dotted(o[..i])
    {
      assert b[i] == pkg[cursor + i];
      DottedSnoc(o[..i], o[i]);
      assert o[..i + 1] == o[..i] + [o[i]];
      res := res + Decimal(pkg[cursor + i]) + [DOT];
    }
    assert o[..4] == o;
    DottedIsJoin(o);
    res := res[..|res| - 1];
  }

  /** The address read from an A record, asked for in reverse, gives the reversed octets. */
  lemma ReverseLookup(b: bytes)
    requires |b| == 4
    ensures Split(ArpaName(DottedIp(b)), DOT)
         == [Decimal(b[3]), Decimal(b[2]), Decimal(b[1]), Decimal(b[0])] + ARPA
  {
    SplitJoin(Octets(b), DOT);
    ArpaLabels(DottedIp(b));
  }

  // ---------------------------------------------------------------- writing a request

  /** The name that goes on the wire for a question. */
  function WireName(q: Query): bytes {
    if q.typ == TYPE_PTR then ArpaName(q.name) else q.name
  }

  function EncodeQuestion(q: Query): (r: bytes)
    ensures |r| == |EncodeName(WireName(q))| + 4
  {
    EncodeName(WireName(q)) + BigEndian.Digits(q.typ, 2) + BigEndian.Digits(q.cls, 2)
  }

  function EncodeQuestions(qs: seq<Query>): bytes {
    if qs == [] then [] else EncodeQuestions(qs[..|qs| - 1]) + EncodeQuestion(qs[|qs| - 1])
  }

  /** Id, the flags with only "recursion desired", the question count, and three zero counts. */
  function Header(id: uint16, qCount: uint16): (r: bytes)
    ensures |r| == HEADER_SIZE
  {
    BigEndian.Digits(id, 2) + [1, 0] + BigEndian.Digits(qCount, 2) + [0, 0, 0, 0, 0, 0]
  }

  function RequestBytes(req: Request): (r: bytes)
    ensures |r| >= HEADER_SIZE
  {
    Header(req.id, req.qCount) + EncodeQuestions(req.qlist)
  }

  /** The sizes add up: twelve bytes, and for each question its name and four more. */
  function QuestionSizes(qs: seq<Query>): nat {
    if qs == [] then 0 else QuestionSizes(qs[..|qs| - 1]) + |EncodeName(WireName(qs[|qs| - 1]))| + 4
  }

  lemma {:induction false} RequestSize(qs: seq<Query>)
    ensures |EncodeQuestions(qs)| == QuestionSizes(qs)
  {
    if qs != [] {
      RequestSize(qs[..|qs| - 1]);
    }
  }

  lemma EncodeQuestionsSnoc(qs: seq<Query>, q: Query)
    ensures EncodeQuestions(qs + [q]) == EncodeQuestions(qs) + EncodeQuestion(q)
  {
    assert (qs + [q])[..|qs|] == qs;
  }

  lemma {:induction false} EncodeQuestionsPrefix(qs: seq<Query>, i: nat)
    requires i <= |qs|
    ensures EncodeQuestions(qs[..i]) <= EncodeQuestions(qs)
    decreases |qs|
  {
    hide EncodeQuestion;
    if i < |qs| {
      EncodeQuestionsPrefix(qs[..|qs| - 1], i);
      assert qs[..|qs| - 1][..i] == qs[..i];
    } else {
      assert qs[..i] == qs;
    }
  }

  predicate Bit(x: nat, k: nat) {
    if k == 0 then x % 2 == 1 else Bit(x / 2, k - 1)
  }

  /** Bit `k` set by an or. */
  function WithBit(x: nat, k: nat): (r: nat)
    ensures x <= r
  {
    if k == 0 then x + 1 - x % 2 else 2 * WithBit(x / 2, k - 1) + x % 2
  }

  lemma {:induction false} WithBitSets(x: nat, k: nat, j: nat)
    ensures Bit(WithBit(x, k), j) <==> j == k || Bit(x, j)
  {
    if k > 0 && j > 0 {
      WithBitSets(x / 2, k - 1, j - 1);
    }
  }

  function PowerOfTwo(n: nat): (r: nat)
    ensures r > 0
  {
    if n == 0 then 1 else 2 * PowerOfTwo(n - 1)
  }

  lemma {:induction false} WithBitFits(x: nat, k: nat, n: nat)
    requires k < n && x < PowerOfTwo(n)
    ensures WithBit(x, k) < PowerOfTwo(n)
  {
    assert PowerOfTwo(n) == 2 * PowerOfTwo(n - 1);
    if k > 0 {
      hide PowerOfTwo;
      assert x / 2 < PowerOfTwo(n - 1);
      WithBitFits(x / 2, k - 1, n - 1);
      assert WithBit(x, k) == 2 * WithBit(x / 2, k - 1) + x % 2;
    }
  }

  /** A number is its bits. */
  lemma {:induction false} SameBits(x: nat, y: nat, n: nat)
    requires x < PowerOfTwo(n) && y < PowerOfTwo(n)
    requires forall k: nat :: k < n ==> (Bit(x, k) <==> Bit(y, k))
    ensures x == y
    decreases n
  {
    if n > 0 {
      assert Bit(x, 0) <==> Bit(y, 0);
      forall k: nat | k < n - 1 ensures Bit(x / 2, k) <==> Bit(y / 2, k) {
        assert Bit(x, k + 1) <==> Bit(y, k + 1);
      }
      SameBits(x / 2, y / 2, n - 1);
    }
  }

  lemma ByteIsEightBits()
    ensures PowerOfTwo(8) == 256
  {
    assert PowerOfTwo(4) == 16 && PowerOfTwo(6) == 4 * PowerOfTwo(4);
  }

  /** A bit is a binary digit. */
  lemma {:induction false} BitIsDigit(x: nat, k: nat)
    ensures Bit(x, k) <==> x / PowerOfTwo(k) % 2 == 1
  {
    if k > 0 {
      BitIsDigit(x / 2, k - 1);
      HalfFirst(x, PowerOfTwo(k - 1));
    }
  }

  lemma HalfFirst(x: nat, m: nat)
    requires m > 0
    ensures x / (2 * m) == x / 2 / m
  {
    var q, r := x / 2 / m, x / 2 % m;
    assert x / 2 == m * q + r;
    assert x == (2 * m) * q + (2 * r + x % 2);
    BigEndian.QuotientIs(x, 2 * m, q, 2 * r + x % 2);
  }

  /** The flags of a header, numbered from the highest bit of the first byte. */
  predicate Flag(flags: bytes, k: nat)
    requires |flags| == 2 && k <= 15
  {
    if k <= 7 then Bit(flags[0], 7 - k) else Bit(flags[1], 15 - k)
  }

  /** Flag `k` is the `k`-th binary digit, from the highest, of the two flag bytes as a number. */
  lemma FlagIsDigit(flags: bytes, k: nat)
    requires |flags| == 2 && k <= 15
    ensures Flag(flags, k) <==> Bit(BigEndian.Value(flags), 15 - k)
  {
    BigEndian.ValueOfTwo(flags[0], flags[1]);
    assert flags == [flags[0], flags[1]];
    BytesOfBits(flags[0], flags[1], 8, 15 - k);
  }

  lemma {:induction false} BytesOfBits(hi: nat, lo: nat, n: nat, k: nat)
    requires lo < PowerOfTwo(n)
    ensures Bit(PowerOfTwo(n) * hi + lo, k) <==> if k < n then Bit(lo, k) else Bit(hi, k - n)
    decreases n
  {
    if n > 0 {
      var m := PowerOfTwo(n - 1) * hi;
      assert PowerOfTwo(n) * hi + lo == 2 * m + lo;
      if k > 0 {
        assert (2 * m + lo) / 2 == m + lo / 2;
        BytesOfBits(hi, lo / 2, n - 1, k - 1);
      }
    }
  }

  /** One flag set, the fifteen others as before. */
  predicate Raised(f: bytes, flag: nat, f': bytes)
    requires |f| == |f'| == 2
  {
    forall k: nat :: k <= 15 ==> Flag(f', k) == (k == flag || Flag(f, k))
  }

  /** `set_flag`: the flag is set, the fifteen others and all other bytes are as before. */
  method SetFlag(buf: array<byte>, at: nat, flag: nat)
    requires at + 2 <= buf.Length && flag <= 15
    modifies buf
    ensures buf[..] == Patched(old(buf[..]), at, buf[at..at + 2])
    ensures Raised(old(buf[at..at + 2]), flag, buf[at..at + 2])
  {
    hide Bit, WithBit, Raised;
    ByteIsEightBits();
    ghost var b, f := buf[..], buf[at..at + 2];
    if flag <= 7 {
      WithBitFits(buf[at], 7 - flag, 8);
      buf[at] := WithBit(buf[at], 7 - flag);
    } else {
      WithBitFits(buf[at + 1], 7 - (flag - 8), 8);
      buf[at + 1] := WithBit(buf[at + 1], 7 - (flag - 8));
    }
    FlagSet(f, buf[at..at + 2], flag);
  }

  lemma FlagSet(f: bytes, f': bytes, flag: nat)
    requires |f| == |f'| == 2 && flag <= 15
    requires f'[0] == if flag <= 7 then WithBit(f[0], 7 - flag) else f[0]
    requires f'[1] == if flag <= 7 then f[1] else WithBit(f[1], 15 - flag)
    ensures Raised(f, flag, f')
  {
    hide Bit, WithBit;
    forall k: nat | k <= 15 ensures Flag(f', k) == (k == flag || Flag(f, k)) {
      if flag <= 7 && k <= 7 {
        WithBitSets(f[0], 7 - flag, 7 - k);
      } else if flag > 7 && k > 7 {
        WithBitSets(f[1], 15 - flag, 15 - k);
      }
    }
  }

  const FLAG_RD: nat := 7

  lemma PatchedAt(b: bytes, at: nat, w: bytes)
    requires at + |w| <= |b|
    ensures forall k :: 0 <= k < |b| ==> Patched(b, at, w)[k] == if at <= k < at + |w| then w[k - at] else b[k]
  {
  }

  lemma ThreeCounts(b: bytes)
    requires |b| >= HEADER_SIZE
    ensures Patched(Patched(Patched(b, 6, [0, 0]), 10, [0, 0]), 8, [0, 0]) == Patched(b, 6, [0, 0, 0, 0, 0, 0])
  {
    hide Patched;
    PatchedAt(b, 6, [0, 0]);
    PatchedAt(Patched(b, 6, [0, 0]), 10, [0, 0]);
    PatchedAt(Patched(Patched(b, 6, [0, 0]), 10, [0, 0]), 8, [0, 0]);
    PatchedAt(b, 6, [0, 0, 0, 0, 0, 0]);
  }

  /** A gap left open is filled later. */
  lemma PatchedBetween(b: bytes, u: bytes, f: bytes, t: bytes)
    requires |u| + |f| + |t| <= |b|
    ensures Patched(Patched(Patched(b, 0, u), |u| + |f|, t), |u|, f) == Patched(b, 0, u + f + t)
  {
    var b1 := Patched(b, 0, u);
    var b2 := Patched(b1, |u| + |f|, t);
    assert b1[..|u|] == u;
    assert b2[..|u|] == u;
    assert b2[|u| + |f|..] == t + b[|u| + |f| + |t|..];
  }

  /** The header fields, written in the program's order. */
  lemma HeaderInPlace(b: bytes, id: bytes, qCount: bytes)
    requires |id| == |qCount| == 2 && |b| >= HEADER_SIZE
    ensures var b2 := Patched(Patched(b, 0, id), 4, qCount);
            var b5 := Patched(Patched(Patched(b2, 6, [0, 0]), 10, [0, 0]), 8, [0, 0]);
            Patched(Patched(b5, 2, [0, 0]), 2, [1, 0]) == Patched(b, 0, id + [1, 0] + qCount + [0, 0, 0, 0, 0, 0])
  {
    hide Patched;
    var b1 := Patched(b, 0, id);
    var t := qCount + [0, 0, 0, 0, 0, 0];
    ThreeCounts(Patched(b1, 4, qCount));
    PatchedTwice(b1, 4, qCount, [0, 0, 0, 0, 0, 0]);
    PatchedOver(Patched(b1, 4, t), 2, [0, 0], [1, 0]);
    PatchedBetween(b, id, [1, 0], t);
    assert id + [1, 0] + t == id + [1, 0] + qCount + [0, 0, 0, 0, 0, 0];
  }

  lemma PatchedOver(b: bytes, at: nat, w: bytes, w': bytes)
    requires at + |w| <= |b| && |w| == |w'|
    ensures Patched(Patched(b, at, w), at, w') == Patched(b, at, w')
  {
  }

  /** The flag bytes of a request. */
  lemma OnlyRecursionDesired(f: bytes)
    requires |f| == 2 && Raised([0, 0], FLAG_RD, f)
    ensures f == [1, 0]
  {
    ByteIsEightBits();
    forall k: nat | k < 8 ensures (Bit(f[0], k) <==> Bit(1, k)) && (Bit(f[1], k) <==> Bit(0, k)) {
      hide Bit;
      assert Flag(f, 7 - k) == (7 - k == FLAG_RD || Flag([0, 0], 7 - k));
      assert Flag(f, 15 - k) == (15 - k == FLAG_RD || Flag([0, 0], 15 - k));
      WithBitSets(0, 0, k);
      assert WithBit(0, 0) == 1;
    }
    SameBits(f[0], 1, 8);
    SameBits(f[1], 0, 8);
  }

  method WriteHeader(buf: array<byte>, id: uint16, qCount: uint16)
    requires HEADER_SIZE <= buf.Length
    modifies buf
    ensures buf[..] == Patched(old(buf[..]), 0, Header(id, qCount))
  {
    hide BigEndian.Digits, Patched, Raised;
    ZeroDigits();
    HeaderInPlace(buf[..], BigEndian.Digits(id, 2), BigEndian.Digits(qCount, 2));
    BigEndian.BuffWrite(buf, 0, 2, id);
    BigEndian.BuffWrite(buf, 4, 2, qCount);
    BigEndian.BuffWrite(buf, 6, 2, 0);
    BigEndian.BuffWrite(buf, 10, 2, 0);
    BigEndian.BuffWrite(buf, 8, 2, 0);
    BigEndian.BuffWrite(buf, 2, 2, 0);
    assert buf[2..4] == buf[..][2..4] == [0, 0];
    SetFlag(buf, 2, FLAG_RD);
    OnlyRecursionDesired(buf[2..4]);
  }

  lemma ZeroDigits()
    ensures BigEndian.Digits(0, 2) == [0, 0]
  {
    assert 0 / BigEndian.Pow256(0) == 0 && 0 / BigEndian.Pow256(1) == 0;
  }

  method WriteQuestion(buf: array<byte>, cursor: nat, q: Query) returns (next: nat)
    requires cursor + |EncodeQuestion(q)| <= buf.Length
    modifies buf
    ensures next == cursor + |EncodeQuestion(q)|
    ensures buf[..] == Patched(old(buf[..]), cursor, EncodeQuestion(q))
  {
    hide EncodeName, BigEndian.Digits, Patched, ArpaName;
    var name := q.name;
    if q.typ == TYPE_PTR {
      name := IpToArpa(q.name);
    }
    var n := EncodeName(name);
    PatchedTwice(buf[..], cursor, n, BigEndian.Digits(q.typ, 2));
    PatchedTwice(buf[..], cursor, n + BigEndian.Digits(q.typ, 2), BigEndian.Digits(q.cls, 2));
    next := WriteName(name, buf, cursor);
    BigEndian.BuffWrite(buf, next, 2, q.typ);
    next := next + 2;
    BigEndian.BuffWrite(buf, next, 2, q.cls);
    next := next + 2;
  }

  /** `request_buff_write`: the size written, or 0 and nothing written for a zero question count. */
  method RequestBuffWrite(buffer: array<byte>, req: Request) returns (written: nat)
    requires req.qCount != 0 ==> |RequestBytes(req)| <= buffer.Length
    modifies buffer
    ensures req.qCount == 0 ==> written == 0 && buffer[..] == old(buffer[..])
    ensures req.qCount != 0 ==> written == |RequestBytes(req)|
    ensures req.qCount != 0 ==> buffer[..] == Patched(old(buffer[..]), 0, RequestBytes(req))
    ensures req.qCount != 0 ==> buffer.Length >= HEADER_SIZE && AsksFor(buffer[..HEADER_SIZE], req.id, req.qCount)
  {
    if req.qCount == 0 {
      return 0;
    }
    hide EncodeQuestion, Patched, Header, EncodeQuestions;
    PatchedTwice(buffer[..], 0, Header(req.id, req.qCount), EncodeQuestions(req.qlist));
    WriteHeader(buffer, req.id, req.qCount);
    HeaderAsks(req.id, req.qCount);
    var cursor := WriteQuestions(buffer, HEADER_SIZE, req.qlist);
    assert buffer[..HEADER_SIZE] == Header(req.id, req.qCount) by {
      HeaderInFront(old(buffer[..]), Header(req.id, req.qCount), EncodeQuestions(req.qlist));
      assert buffer[..HEADER_SIZE] == buffer[..][..HEADER_SIZE];
    }
    return cursor;
  }

  lemma HeaderInFront(b: bytes, h: bytes, t: bytes)
    requires |h| + |t| <= |b|
    ensures Patched(b, 0, h + t)[..|h|] == h
  {
  }

  /** A header in the format of section 4.1.1 of RFC 1035 that asks `qCount` questions under `id` and
      desires recursion, and nothing else. */
  ghost predicate AsksFor(h: bytes, id: nat, qCount: nat)
    requires |h| == HEADER_SIZE
  {
    && BigEndian.Value(h[0..2]) == id
    && (forall k: nat :: k <= 15 ==> Flag(h[2..4], k) == (k == 7))
    && BigEndian.Value(h[4..6]) == qCount
    && BigEndian.Value(h[6..8]) == BigEndian.Value(h[8..10]) == BigEndian.Value(h[10..12]) == 0
  }

  lemma HeaderAsks(id: uint16, qCount: uint16)
    ensures AsksFor(Header(id, qCount), id, qCount)
  {
    hide BigEndian.Digits, Flag;
    var h := Header(id, qCount);
    assert h[0..2] == BigEndian.Digits(id, 2) && h[4..6] == BigEndian.Digits(qCount, 2);
    assert h[2..4] == [1, 0] && h[6..8] == h[8..10] == h[10..12] == [0, 0];
    SixteenBits(id);
    SixteenBits(qCount);
    BigEndian.ValueOfTwo(0, 0);
    forall k: nat | k <= 15 ensures Flag([1, 0], k) == (k == 7) {
      OnlyFlagSeven(k);
    }
  }

  lemma SixteenBits(x: uint16)
    ensures BigEndian.Value(BigEndian.Digits(x, 2)) == x
  {
    assert BigEndian.Pow256(2) == 256 * BigEndian.Pow256(1) && BigEndian.Pow256(1) == 256 * BigEndian.Pow256(0);
    BigEndian.ValueOfDigits(x, 2);
  }

  lemma OnlyFlagSeven(k: nat)
    requires k <= 15
    ensures Flag([1, 0], k) == (k == 7)
  {
    hide Bit;
    if k <= 7 {
      WithBitSets(0, 0, 7 - k);
      assert WithBit(0, 0) == 1;
      NoBits(7 - k);
    } else {
      NoBits(15 - k);
    }
  }

  lemma {:induction false} NoBits(k: nat)
    ensures !Bit(0, k)
  {
    if k > 0 {
      NoBits(k - 1);
    }
  }

  method WriteQuestions(buf: array<byte>, cursor: nat, qs: seq<Query>) returns (next: nat)
    requires cursor + |EncodeQuestions(qs)| <= buf.Length
    modifies buf
    ensures next == cursor + |EncodeQuestions(qs)|
    ensures buf[..] == Patched(old(buf[..]), cursor, EncodeQuestions(qs))
  {
    hide EncodeQuestion, Patched, EncodeQuestions;
    next := cursor;
    NoQuestions();
    assert qs[..0] == [];
    PatchedNothing(buf[..], cursor);
    for i := 0 to |qs|
      invariant next == cursor + |EncodeQuestions(qs[..i])| <= buf.Length
      invariant buf[..] == Patched(old(buf[..]), cursor, EncodeQuestions(qs[..i]))
    {
      assert qs[..i + 1] == qs[..i] + [qs[i]];
      EncodeQuestionsSnoc(qs[..i], qs[i]);
      EncodeQuestionsPrefix(qs, i + 1);
      PatchedTwice(old(buf[..]), cursor, EncodeQuestions(qs[..i]), EncodeQuestion(qs[i]));
      next := WriteQuestion(buf, next, qs[i]);
    }
    assert qs[..|qs|] == qs;
  }

  lemma NoQuestions()
    ensures EncodeQuestions([]) == []
  {
  }
}
