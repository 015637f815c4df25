/** The message parser: `respond_buff_parse`, and what each section of a message means. */
module DnsParser {
  import opened Bytes
  import BigEndian
  import opened DnsNames
  import opened DnsMessages

  /** The number of `n` bytes at `c`. */
  function Number(p: bytes, c: nat, n: nat): nat
    requires c + n <= |p|
  {
    BigEndian.Value(p[c..c + n])
  }

  /** A question read at `c` and the offset behind it; `None` where reading is undefined. */
  ghost function ReadQuestion(p: bytes, c: nat): Option<(Query, nat)> {
    if ReadName(p, c).None? then None
    else
      var e := NameEnd(p, c);
      if e + 4 > |p| then None
      else Some((Query(ReadName(p, c).value, Number16(p, e), Number16(p, e + 2)), e + 4))
  }

  function Number16(p: bytes, c: nat): uint16
    requires c + 2 <= |p|
  {
    assert BigEndian.Pow256(2) == 256 * BigEndian.Pow256(1) && BigEndian.Pow256(1) == 256 * BigEndian.Pow256(0);
    Number(p, c, 2)
  }

  ghost function QuestionsOnto(got: seq<Query>, p: bytes, c: nat, n: nat): Option<(seq<Query>, nat)>
    decreases n
  {
    if n == 0 then Some((got, c))
    else match ReadQuestion(p, c)
      case None => None
      case Some((q, next)) => QuestionsOnto(got + [q], p, next, n - 1)
  }

  /** Record data by type: preference, answer text and the offset behind it.  Data of any other
      type is not read and not skipped. */
  ghost function ReadData(p: bytes, c: nat, typ: nat): Option<(nat, bytes, nat)> {
    if typ == TYPE_A then
      if c + 4 <= |p| then Some((0, DottedIp(p[c..c + 4]), c + 4)) else None
    else if typ == TYPE_PTR then
      if ReadName(p, c).Some? then Some((0, ReadName(p, c).value, NameEnd(p, c))) else None
    else if typ == TYPE_MX then
      if c + 2 <= |p| && ReadName(p, c + 2).Some?
      then Some((Number(p, c, 2), ReadName(p, c + 2).value, NameEnd(p, c + 2))) else None
    else Some((0, [], c))
  }

  ghost function ReadAnswer(p: bytes, c: nat): Option<(Answer, nat)> {
    if ReadName(p, c).None? then None
    else
      var e := NameEnd(p, c);
      if e + 10 > |p| then None
      else
        var typ := Number(p, e, 2);
        match ReadData(p, e + 10, typ)
        case None => None
        case Some((pref, text, next)) =>
          var cls, ttl, dsize := Number(p, e + 2, 2), Number(p, e + 4, 4), Number(p, e + 8, 2);
          Some((Answer(ReadName(p, c).value, typ, cls, ttl, dsize, pref, text), next))
  }

  ghost function AnswersOnto(got: seq<Answer>, p: bytes, c: nat, n: nat): Option<(seq<Answer>, nat)>
    decreases n
  {
    if n == 0 then Some((got, c))
    else match ReadAnswer(p, c)
      case None => None
      case Some((a, next)) => AnswersOnto(got + [a], p, next, n - 1)
  }

  datatype Body = Body(questions: seq<Query>, answers: seq<Answer>, end: nat)

  /** Everything behind the header. */
  ghost function ReadBody(p: bytes): Option<Body>
    requires |p| >= HEADER_SIZE
  {
    match QuestionsOnto([], p, HEADER_SIZE, Number(p, 4, 2))
    case None => None
    case Some((qs, c)) =>
      match AnswersOnto([], p, c, Number(p, 6, 2))
      case None => None
      case Some((answers, end)) => Some(Body(qs, answers, end))
  }

  /** The four last flags are the response code. */
  lemma ResponseCode(flags: bytes)
    requires |flags| == 2
    ensures flags[1] % 16 != 0 <==> exists k: nat :: 12 <= k <= 15 && Flag(flags, k)
  {
    LowDigits(flags[1]);
    FourDigits(flags[1]);
    hide Bit;
    if flags[1] % 16 != 0 {
      var k := SomeLowBit(flags[1]);
      assert Flag(flags, 15 - k);
    }
  }

  /** The four lowest bits are the remainders of halving. */
  lemma LowDigits(x: nat)
    ensures (Bit(x, 0) <==> x % 2 == 1) && (Bit(x, 1) <==> x / 2 % 2 == 1)
    ensures (Bit(x, 2) <==> x / 2 / 2 % 2 == 1) && (Bit(x, 3) <==> x / 2 / 2 / 2 % 2 == 1)
  {
    assert Bit(x, 1) == Bit(x / 2, 0) && Bit(x, 2) == Bit(x / 2, 1) && Bit(x, 3) == Bit(x / 2, 2);
    assert Bit(x / 2, 1) == Bit(x / 2 / 2, 0) && Bit(x / 2, 2) == Bit(x / 2 / 2, 1);
    assert Bit(x / 2 / 2, 1) == Bit(x / 2 / 2 / 2, 0);
  }

  lemma FourDigits(x: nat)
    ensures x % 16 == 8 * (x / 2 / 2 / 2 % 2) + 4 * (x / 2 / 2 % 2) + 2 * (x / 2 % 2) + x % 2
  {
    var a, b, c := x / 2, x / 2 / 2, x / 2 / 2 / 2;
    var d := c / 2;
    assert x == 2 * a + x % 2 && a == 2 * b + a % 2 && b == 2 * c + b % 2 && c == 2 * d + c % 2;
    assert x == 16 * d + (8 * (c % 2) + 4 * (b % 2) + 2 * (a % 2) + x % 2);
  }

  lemma SomeLowBit(x: nat) returns (k: nat)
    requires x % 16 != 0
    ensures k <= 3 && Bit(x, k)
  {
    LowDigits(x);
    FourDigits(x);
    hide Bit;
    k := if Bit(x, 0) then 0 else if Bit(x, 1) then 1 else if Bit(x, 2) then 2 else 3;
  }

  /** The first check that fails decides; the body is read only when there is none. */
  function Refused(p: bytes, reqId: uint16): DnsError
    requires |p| >= HEADER_SIZE
  {
    if reqId != 0 && reqId != Number(p, 0, 2) then IdMatchErr
    else if p[3] % 16 != 0 then ResolvErr
    else NoError
  }

  class DnsRespond {
    var id: nat
    var error: nat
    var qCount: nat
    var aCount: nat
    var qlist: seq<Query>
    var alist: seq<Answer>
  }

  method ReadQuestionAt(pkg: array<byte>, cursor: nat) returns (q: Query, next: nat)
    requires ReadQuestion(pkg[..], cursor).Some?
    ensures ReadQuestion(pkg[..], cursor) == Some((q, next))
  {
    var e, name := ReadNameAt(pkg, cursor);
    assert pkg[..][e..e + 2] == pkg[e..e + 2] && pkg[..][e + 2..e + 4] == pkg[e + 2..e + 4];
    var typ := BigEndian.BuffRead(pkg, e, 2);
    var cls := BigEndian.BuffRead(pkg, e + 2, 2);
    assert typ == Number16(pkg[..], e) && cls == Number16(pkg[..], e + 2);
    q, next := Query(name, typ, cls), e + 4;
  }

  method ReadDataAt(pkg: array<byte>, cursor: nat, typ: nat) returns (preference: nat, answer: bytes, next: nat)
    requires ReadData(pkg[..], cursor, typ).Some?
    ensures ReadData(pkg[..], cursor, typ) == Some((preference, answer, next))
  {
    preference, answer, next := 0, [], cursor;
    if typ == TYPE_A {
      assert pkg[..][cursor..cursor + 4] == pkg[cursor..cursor + 4];
      answer := IpStepRead(pkg, cursor);
      next := cursor + 4;
    } else if typ == TYPE_PTR {
      next, answer := ReadNameAt(pkg, cursor);
    } else if typ == TYPE_MX {
      assert pkg[..][cursor..cursor + 2] == pkg[cursor..cursor + 2];
      preference := BigEndian.BuffRead(pkg, cursor, 2);
      next, answer := ReadNameAt(pkg, cursor + 2);
    }
  }

  method ReadAnswerAt(pkg: array<byte>, cursor: nat) returns (a: Answer, next: nat)
    requires ReadAnswer(pkg[..], cursor).Some?
    ensures ReadAnswer(pkg[..], cursor) == Some((a, next))
  {
    hide ReadName, NameEnd, ReadData;
    var e, reqName := ReadNameAt(pkg, cursor);
    SameSlice(pkg, e, 2);
    SameSlice(pkg, e + 2, 2);
    SameSlice(pkg, e + 4, 4);
    SameSlice(pkg, e + 8, 2);
    var typ := BigEndian.BuffRead(pkg, e, 2);
    var cls := BigEndian.BuffRead(pkg, e + 2, 2);
    var ttl := BigEndian.BuffRead(pkg, e + 4, 4);
    var dsize := BigEndian.BuffRead(pkg, e + 8, 2);
    var preference, answer;
    preference, answer, next := ReadDataAt(pkg, e + 10, typ);
    a := Answer(reqName, typ, cls, ttl, dsize, preference, answer);
  }

  lemma SameSlice(pkg: array<byte>, c: nat, n: nat)
    requires c + n <= pkg.Length
    ensures pkg[..][c..c + n] == pkg[c..c + n]
  {
  }

  /** `respond_buff_parse`.  It may be called when the packet has a header and, unless the header
      already refuses it, a body the reader can read; anything else is undefined behaviour. */
  method RespondBuffParse(buffer: array<byte>, res: DnsRespond, reqId: uint16) returns (err: DnsError)
    requires buffer.Length >= HEADER_SIZE
    requires Refused(buffer[..], reqId) == NoError ==> ReadBody(buffer[..]).Some?
    modifies res
    ensures err == Refused(buffer[..], reqId)
    ensures err == IdMatchErr <==> reqId != 0 && reqId != BigEndian.Value(buffer[0..2])
    ensures err == ResolvErr <==> err != IdMatchErr && exists k: nat :: 12 <= k <= 15 && Flag(buffer[2..4], k)
    ensures err in {IdMatchErr, ResolvErr, NoError}
    ensures res.id == Number(buffer[..], 0, 2)
    ensures err == IdMatchErr ==> res.error == old(res.error)
    ensures err != IdMatchErr ==> res.error == buffer[3] % 16
    ensures err != NoError ==> res.qCount == old(res.qCount) && res.aCount == old(res.aCount)
    ensures err != NoError ==> res.qlist == old(res.qlist) && res.alist == old(res.alist)
    ensures err == NoError ==> res.qCount == Number(buffer[..], 4, 2) && res.aCount == Number(buffer[..], 6, 2)
    ensures err == NoError ==> res.qlist == old(res.qlist) + ReadBody(buffer[..]).value.questions
    ensures err == NoError ==> res.alist == old(res.alist) + ReadBody(buffer[..]).value.answers
  {
    hide ReadBody, Flag;
    ResponseCode(buffer[2..4]);
    SameSlice(buffer, 0, 2);
    res.id := BigEndian.BuffRead(buffer, 0, 2);
    if reqId != 0 && reqId != res.id {
      return IdMatchErr;
    }
    res.error := buffer[3] % 16;
    if res.error != 0 {
      return ResolvErr;
    }
    ParseBody(buffer, res);
    err := NoError;
  }

  /** The counts and the two sections behind the header. */
  method ParseBody(buffer: array<byte>, res: DnsRespond)
    requires buffer.Length >= HEADER_SIZE && ReadBody(buffer[..]).Some?
    modifies res`qCount, res`aCount, res`qlist, res`alist
    ensures res.qCount == Number(buffer[..], 4, 2) && res.aCount == Number(buffer[..], 6, 2)
    ensures res.qlist == old(res.qlist) + ReadBody(buffer[..]).value.questions
    ensures res.alist == old(res.alist) + ReadBody(buffer[..]).value.answers
  {
    hide QuestionsOnto, AnswersOnto;
    SameSlice(buffer, 4, 2);
    SameSlice(buffer, 6, 2);
    res.qCount := BigEndian.BuffRead(buffer, 4, 2);
    res.aCount := BigEndian.BuffRead(buffer, 6, 2);
    var cursor := ParseQuestions(buffer, res);
    cursor := ParseAnswers(buffer, cursor, res);
  }

  lemma NextQuestionRead(got: seq<Query>, p: bytes, c: nat, n: nat)
    requires n > 0 && (QuestionsOnto(got, p, c, n).Some? || ReadQuestion(p, c).Some?)
    ensures ReadQuestion(p, c).Some?
    ensures var r := ReadQuestion(p, c).value; QuestionsOnto(got, p, c, n) == QuestionsOnto(got + [r.0], p, r.1, n - 1)
  {
  }

  lemma NoQuestionLeft(got: seq<Query>, p: bytes, c: nat)
    ensures QuestionsOnto(got, p, c, 0) == Some((got, c))
  {
  }

  lemma NoAnswerLeft(got: seq<Answer>, p: bytes, c: nat)
    ensures AnswersOnto(got, p, c, 0) == Some((got, c))
  {
  }

  lemma NextAnswerRead(got: seq<Answer>, p: bytes, c: nat, n: nat)
    requires n > 0 && AnswersOnto(got, p, c, n).Some?
    ensures ReadAnswer(p, c).Some?
    ensures var r := ReadAnswer(p, c).value; AnswersOnto(got, p, c, n) == AnswersOnto(got + [r.0], p, r.1, n - 1)
  {
  }

  method ParseQuestions(buffer: array<byte>, res: DnsRespond) returns (cursor: nat)
    requires QuestionsOnto([], buffer[..], HEADER_SIZE, res.qCount).Some?
    modifies res`qlist
    ensures var r := QuestionsOnto([], buffer[..], HEADER_SIZE, res.qCount).value;
            res.qlist == old(res.qlist) + r.0 && cursor == r.1
  {
    hide ReadQuestion, QuestionsOnto;
    cursor := HEADER_SIZE;
    ghost var p, got: seq<Query> := buffer[..], [];
    for i := 0 to res.qCount
      invariant res.qlist == old(res.qlist) + got
      invariant buffer[..] == p
      invariant QuestionsOnto(got, p, cursor, res.qCount - i) == QuestionsOnto([], p, HEADER_SIZE, res.qCount)
    {
      NextQuestionRead(got, p, cursor, res.qCount - i);
      ghost var one := [ReadQuestion(p, cursor).value.0];
      assert old(res.qlist) + got + one == old(res.qlist) + (got + one);
      var q, next := ReadQuestionAt(buffer, cursor);
      res.qlist := res.qlist + [q];
      got := got + [q];
      cursor := next;
    }
    NoQuestionLeft(got, p, cursor);
  }

  method ParseAnswers(buffer: array<byte>, start: nat, res: DnsRespond) returns (cursor: nat)
    requires AnswersOnto([], buffer[..], start, res.aCount).Some?
    modifies res`alist
    ensures var r := AnswersOnto([], buffer[..], start, res.aCount).value;
            res.alist == old(res.alist) + r.0 && cursor == r.1
  {
    hide ReadAnswer, AnswersOnto;
    cursor := start;
    ghost var p, got: seq<Answer> := buffer[..], [];
    for i := 0 to res.aCount
      invariant res.alist == old(res.alist) + got
      invariant buffer[..] == p
      invariant AnswersOnto(got, p, cursor, res.aCount - i) == AnswersOnto([], p, start, res.aCount)
    {
      NextAnswerRead(got, p, cursor, res.aCount - i);
      ghost var one := [ReadAnswer(p, cursor).value.0];
      assert old(res.alist) + got + one == old(res.alist) + (got + one);
      var a, next := ReadAnswerAt(buffer, cursor);
      res.alist := res.alist + [a];
      got := got + [a];
      cursor := next;
    }
    NoAnswerLeft(got, p, cursor);
  }
}
