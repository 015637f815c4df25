/** Writer and parser together: which requests read back as written, and what the parser makes of
    any message in the format of RFC 1035. */
module DnsRoundTrip {
  import opened Bytes
  import opened Tokens
  import BigEndian
  import opened DnsNames
  import opened DnsMessages
  import opened DnsParser
  import opened DnsNameRoundTrip

  // ---------------------------------------------------------------- requests

  /** What the parser should report for a question: the name that went on the wire. */
  function Reported(qs: seq<Query>): (r: seq<Query>)
    ensures |r| == |qs|
  {
    seq(|qs|, i requires 0 <= i < |qs| => qs[i].(name := WireName(qs[i])))
  }

  /** A caller can check this before writing. */
  predicate AllReadable(qs: seq<Query>) {
    forall i :: 0 <= i < |qs| ==> Readable(WireName(qs[i]))
  }

  lemma DigitsRead(p: bytes, c: nat, x: uint16)
    requires Holds(p, c, BigEndian.Digits(x, 2))
    ensures Number16(p, c) == x && Number(p, c, 2) == x
  {
    assert BigEndian.Pow256(2) == 256 * BigEndian.Pow256(1) && BigEndian.Pow256(1) == 256 * BigEndian.Pow256(0);
    BigEndian.ValueOfDigits(x, 2);
  }

  lemma QuestionParts(p: bytes, c: nat, q: Query)
    requires Holds(p, c, EncodeQuestion(q))
    ensures var n := EncodeName(WireName(q));
            && Holds(p, c, n)
            && Holds(p, c + |n|, BigEndian.Digits(q.typ, 2)) && Holds(p, c + |n| + 2, BigEndian.Digits(q.cls, 2))
  {
    hide EncodeName, BigEndian.Digits, Holds;
    var n := EncodeName(WireName(q));
    HoldsPrefix(p, c, EncodeQuestion(q), n + BigEndian.Digits(q.typ, 2));
    HoldsPrefix(p, c, EncodeQuestion(q), n);
    HoldsSuffix(p, c, n, BigEndian.Digits(q.typ, 2));
    HoldsSuffix(p, c, n + BigEndian.Digits(q.typ, 2), BigEndian.Digits(q.cls, 2));
  }

  /** One question reads back exactly when its wire name is readable. */
  lemma OneQuestion(p: bytes, c: nat, q: Query)
    requires Holds(p, c, EncodeQuestion(q))
    ensures Readable(WireName(q)) ==>
              ReadQuestion(p, c) == Some((q.(name := WireName(q)), c + |EncodeQuestion(q)|))
    ensures !Readable(WireName(q)) ==>
              ReadQuestion(p, c).Some? ==> ReadQuestion(p, c).value.0.name != WireName(q)
  {
    hide EncodeName, BigEndian.Digits, Readable, ReadName, NameEnd;
    QuestionParts(p, c, q);
    NameRoundTrip(p, c, WireName(q));
    if Readable(WireName(q)) {
      GoodNameReads(p, c, WireName(q));
      var e := c + |EncodeName(WireName(q))|;
      DigitsRead(p, e, q.typ);
      DigitsRead(p, e + 2, q.cls);
    }
  }

  lemma QuestionPlaced(p: bytes, c: nat, qs: seq<Query>, k: nat)
    requires Holds(p, c, EncodeQuestions(qs)) && k < |qs|
    ensures Holds(p, c + |EncodeQuestions(qs[..k])|, EncodeQuestion(qs[k]))
    ensures |EncodeQuestions(qs[..k + 1])| == |EncodeQuestions(qs[..k])| + |EncodeQuestion(qs[k])|
  {
    hide EncodeQuestions, EncodeQuestion, Holds;
    EncodeQuestionsPrefix(qs, k + 1);
    HoldsPrefix(p, c, EncodeQuestions(qs), EncodeQuestions(qs[..k + 1]));
    assert qs[..k + 1] == qs[..k] + [qs[k]];
    EncodeQuestionsSnoc(qs[..k], qs[k]);
    HoldsSuffix(p, c, EncodeQuestions(qs[..k]), EncodeQuestion(qs[k]));
  }

  lemma {:induction false} ReadQuestionRun(p: bytes, c: nat, qs: seq<Query>, i: nat)
    requires Holds(p, c, EncodeQuestions(qs)) && i <= |qs| && AllReadable(qs[..i])
    ensures QuestionsOnto([], p, c, |qs|)
         == QuestionsOnto(Reported(qs)[..i], p, c + |EncodeQuestions(qs[..i])|, |qs| - i)
    decreases i
  {
    hide EncodeQuestion, EncodeQuestions, Holds, ReadQuestion, Readable, QuestionsOnto, WireName;
    if i == 0 {
      NoQuestions();
      assert qs[..0] == [] && Reported(qs)[..0] == [];
    } else {
      assert qs[..i - 1] == qs[..i][..i - 1] && qs[..i][i - 1] == qs[i - 1];
      ReadQuestionRun(p, c, qs, i - 1);
      QuestionPlaced(p, c, qs, i - 1);
      var e := c + |EncodeQuestions(qs[..i - 1])|;
      OneQuestion(p, e, qs[i - 1]);
      NextQuestionRead(Reported(qs)[..i - 1], p, e, |qs| - i + 1);
      assert Reported(qs)[..i] == Reported(qs)[..i - 1] + [Reported(qs)[i - 1]];
    }
  }

  /** What was read first stays first. */
  lemma {:induction false} QuestionsKeep(got: seq<Query>, p: bytes, c: nat, n: nat)
    requires QuestionsOnto(got, p, c, n).Some?
    ensures got <= QuestionsOnto(got, p, c, n).value.0
    decreases n
  {
    hide ReadQuestion;
    if n > 0 {
      var (q, next) := ReadQuestion(p, c).value;
      QuestionsKeep(got + [q], p, next, n - 1);
    }
  }

  lemma FirstUnreadable(qs: seq<Query>) returns (i: nat)
    requires !AllReadable(qs)
    ensures i < |qs| && !Readable(WireName(qs[i])) && AllReadable(qs[..i])
  {
    hide Readable, WireName;
    i := 0;
    while Readable(WireName(qs[i]))
      invariant i < |qs| && AllReadable(qs[..i])
      invariant exists k :: i <= k < |qs| && !Readable(WireName(qs[k]))
      decreases |qs| - i
    {
      i := i + 1;
    }
  }

  /** The question section reads back exactly when every wire name is readable. */
  lemma QuestionsRoundTrip(p: bytes, c: nat, qs: seq<Query>)
    requires Holds(p, c, EncodeQuestions(qs))
    ensures QuestionsOnto([], p, c, |qs|) == Some((Reported(qs), c + |EncodeQuestions(qs)|)) <==> AllReadable(qs)
  {
    hide EncodeQuestion, Holds, ReadQuestion, Readable, WireName;
    if AllReadable(qs) {
      assert qs[..|qs|] == qs && Reported(qs)[..|qs|] == Reported(qs);
      ReadQuestionRun(p, c, qs, |qs|);
    } else if QuestionsOnto([], p, c, |qs|).Some? {
      var i := FirstUnreadable(qs);
      UnreadableShows(p, c, qs, i);
    }
  }

  lemma UnreadableShows(p: bytes, c: nat, qs: seq<Query>, i: nat)
    requires Holds(p, c, EncodeQuestions(qs)) && i < |qs| && AllReadable(qs[..i]) && !Readable(WireName(qs[i]))
    requires QuestionsOnto([], p, c, |qs|).Some?
    ensures QuestionsOnto([], p, c, |qs|).value.0 != Reported(qs)
  {
    hide EncodeQuestion, EncodeQuestions, Holds, ReadQuestion, Readable, WireName;
    var e := c + |EncodeQuestions(qs[..i])|;
    ReadQuestionRun(p, c, qs, i);
    QuestionPlaced(p, c, qs, i);
    OneQuestion(p, e, qs[i]);
    NextQuestionRead(Reported(qs)[..i], p, e, |qs| - i);
    var (q, next) := ReadQuestion(p, e).value;
    QuestionsKeep(Reported(qs)[..i] + [q], p, next, |qs| - i - 1);
    var r := QuestionsOnto([], p, c, |qs|).value.0;
    assert (Reported(qs)[..i] + [q])[i] == q == r[i];
    assert Reported(qs)[i].name == WireName(qs[i]);
  }

  lemma HeaderReads(p: bytes, id: uint16, n: uint16)
    requires Holds(p, 0, Header(id, n))
    ensures |p| >= HEADER_SIZE
    ensures Number(p, 0, 2) == id && p[3] % 16 == 0 && Number(p, 4, 2) == n && Number(p, 6, 2) == 0
  {
    hide BigEndian.Digits, Number;
    var h := Header(id, n);
    var a, b := BigEndian.Digits(id, 2), BigEndian.Digits(id, 2) + [1, 0];
    HoldsPrefix(p, 0, h, a);
    HoldsPrefix(p, 0, h, b);
    HoldsSuffix(p, 0, a, [1, 0]);
    assert p[3] == p[2..4][1];
    HoldsPrefix(p, 0, h, b + BigEndian.Digits(n, 2));
    HoldsSuffix(p, 0, b, BigEndian.Digits(n, 2));
    HoldsSuffix(p, 0, b + BigEndian.Digits(n, 2), [0, 0, 0, 0, 0, 0]);
    HoldsPrefix(p, 6, [0, 0, 0, 0, 0, 0], [0, 0]);
    ZeroDigits();
    DigitsRead(p, 0, id);
    DigitsRead(p, 4, n);
    DigitsRead(p, 6, 0);
  }

  /** A written request, anywhere at the start of a buffer and checked against its own id or not at
      all, is accepted and reads back as the same questions, no answers, and its own size, exactly
      when every label that went on the wire has 1 to 191 bytes. */
  lemma RequestRoundTrip(p: bytes, req: Request, reqId: uint16)
    requires Holds(p, 0, RequestBytes(req))
    requires req.qCount == |req.qlist| && reqId in {0, req.id}
    ensures |p| >= HEADER_SIZE && Number(p, 0, 2) == req.id && Refused(p, reqId) == NoError
    ensures ReadBody(p) == Some(Body(Reported(req.qlist), [], |RequestBytes(req)|)) <==> AllReadable(req.qlist)
  {
    hide Header, EncodeQuestions, AllReadable, QuestionsOnto, Number, Holds;
    var h, qs := Header(req.id, req.qCount), EncodeQuestions(req.qlist);
    HoldsPrefix(p, 0, RequestBytes(req), h);
    HoldsSuffix(p, 0, h, qs);
    HeaderReads(p, req.id, req.qCount);
    QuestionsRoundTrip(p, HEADER_SIZE, req.qlist);
  }

  // ---------------------------------------------------------------- creating requests

  predicate IsAlnum(c: byte) {
    48 <= c <= 57 || 65 <= c <= 90 || 97 <= c <= 122
  }

  /** Letters, digits, hyphens and dots; at least two labels, none empty. */
  predicate IsFqdn(name: bytes) {
    && name != []
    && (forall i :: 0 <= i < |name| ==> IsAlnum(name[i]) || name[i] == 45 || name[i] == DOT)
    && |Split(name, DOT)| >= 2
    && (forall i :: 0 <= i < |Split(name, DOT)| ==> Split(name, DOT)[i] != [])
  }

  /** `create_request` into a request with an empty question list.  The address test and the random
      id come from outside. */
  function CreateRequest(reqStr: bytes, typ: uint16, isIpV4: bool, id: uint16): (DnsError, Request) {
    if typ == TYPE_PTR && !isIpV4 then (ReqStrErr, Request(0, 0, []))
    else if !IsFqdn(reqStr) then (ReqStrErr, Request(0, 0, []))
    else (NoError, Request(id, 1, [Query(reqStr, typ, 1)]))
  }

  /** Validation rules out empty labels but not long ones: a request for a name (not a reverse
      lookup) that was created without error reads back exactly when no label is longer than 191
      bytes. */
  lemma CreatedRequestRoundTrip(name: bytes, typ: uint16, isIpV4: bool, id: uint16, p: bytes)
    requires typ != TYPE_PTR
    requires CreateRequest(name, typ, isIpV4, id).0 == NoError
    requires Holds(p, 0, RequestBytes(CreateRequest(name, typ, isIpV4, id).1))
    ensures |p| >= HEADER_SIZE
    ensures var req := CreateRequest(name, typ, isIpV4, id).1;
            ReadBody(p) == Some(Body([Query(name, typ, 1)], [], |RequestBytes(req)|))
            <==> Sized(Split(name, DOT), 0, 191)
  {
    hide RequestBytes, ReadBody, Holds, Split;
    var req := CreateRequest(name, typ, isIpV4, id).1;
    RequestRoundTrip(p, req, id);
    assert Reported(req.qlist) == [Query(name, typ, 1)];
    assert AllReadable(req.qlist) <==> Readable(WireName(req.qlist[0]));
    forall i | 0 <= i < |Split(name, DOT)| ensures |Split(name, DOT)[i]| >= 1 {
      assert Split(name, DOT)[i] != [];
    }
  }

  /** The failing family in its smallest form: a label of 192 bytes passes validation, and the
      request does not read back. */
  lemma LongLabelIsLost(isIpV4: bool, id: uint16, p: bytes)
    requires Holds(p, 0, RequestBytes(CreateRequest(LONG_LABEL + [DOT, 98], TYPE_A, isIpV4, id).1))
    ensures var (name, r) := (LONG_LABEL + [DOT, 98], CreateRequest(LONG_LABEL + [DOT, 98], TYPE_A, isIpV4, id));
            && r.0 == NoError && |p| >= HEADER_SIZE
            && ReadBody(p) != Some(Body([Query(name, TYPE_A, 1)], [], |RequestBytes(r.1)|))
  {
    hide RequestBytes, ReadBody, Holds, Split, LONG_LABEL;
    LongNameIsFqdn();
    CreatedRequestRoundTrip(LONG_LABEL + [DOT, 98], TYPE_A, isIpV4, id, p);
  }

  const LONG_LABEL: bytes := seq(192, i => 97)

  lemma LongNameIsFqdn()
    ensures var name := LONG_LABEL + [DOT, 98];
            IsFqdn(name) && |Split(name, DOT)| == 2 && |Split(name, DOT)[0]| == 192
  {
    hide Split;
    var ls := [LONG_LABEL, [98]];
    assert Join(ls, DOT) == LONG_LABEL + [DOT] + [98] by {
      assert ls[..1] == [LONG_LABEL];
    }
    assert LONG_LABEL + [DOT] + [98] == LONG_LABEL + [DOT, 98];
    SplitJoin(ls, DOT);
  }

  lemma {:induction false} JoinBytes(ls: seq<bytes>, d: byte, i: nat)
    requires i < |Join(ls, d)|
    ensures Join(ls, d)[i] == d || exists k :: 0 <= k < |ls| && Join(ls, d)[i] in ls[k]
  {
    if |ls| > 1 {
      var init, last := ls[..|ls| - 1], ls[|ls| - 1];
      assert Join(ls, d) == Join(init, d) + [d] + last;
      if i < |Join(init, d)| {
        JoinBytes(init, d, i);
        if Join(ls, d)[i] != d {
          var k :| 0 <= k < |init| && Join(init, d)[i] in init[k];
          assert Join(ls, d)[i] in ls[k];
        }
      } else if i > |Join(init, d)| {
        assert Join(ls, d)[i] == last[i - |Join(init, d)| - 1];
        assert Join(ls, d)[i] in ls[|ls| - 1];
      }
    } else {
      assert Join(ls, d)[i] in ls[0];
    }
  }

  lemma AddressIsFqdn(octets: bytes)
    requires |octets| == 4
    ensures IsFqdn(DottedIp(octets))
  {
    hide Split, Join, Decimal;
    SplitJoin(Octets(octets), DOT);
    var name := DottedIp(octets);
    forall i | 0 <= i < |name| ensures IsAlnum(name[i]) || name[i] == DOT {
      JoinBytes(Octets(octets), DOT, i);
    }
    JoinNotEmpty(Octets(octets), DOT);
  }

  lemma JoinNotEmpty(ls: seq<bytes>, d: byte)
    requires |ls| > 1
    ensures Join(ls, d) != []
  {
  }

  predicate IsLabel(l: bytes) {
    l != [] && forall i :: 0 <= i < |l| ==> IsAlnum(l[i]) || l[i] == 45
  }

  /** At least two labels of letters, digits and hyphens, joined by dots. */
  ghost predicate JoinsLabels(name: bytes, ls: seq<bytes>) {
    |ls| >= 2 && name == Join(ls, DOT) && forall i :: 0 <= i < |ls| ==> IsLabel(ls[i])
  }

  lemma {:induction false} TokenBytes(s: bytes, d: byte, i: nat, c: byte)
    requires i < |Split(s, d)| && c in Split(s, d)[i]
    ensures c in s && c != d
  {
    if s != [] {
      var s', last := s[..|s| - 1], s[|s| - 1];
      if last == d {
        TokenBytes(s', d, i, c);
      } else if i < |Split(s', d)| - 1 || c in Split(s', d)[i] {
        TokenBytes(s', d, i, c);
      } else {
        assert c == last;
      }
    }
  }

  /** The test for domain names accepts exactly the names that such labels make. */
  lemma FqdnMeans(name: bytes)
    ensures IsFqdn(name) <==> exists ls :: JoinsLabels(name, ls)
  {
    hide Split, Join;
    if IsFqdn(name) {
      var ls := Split(name, DOT);
      JoinSplit(name, DOT);
      forall i | 0 <= i < |ls| ensures IsLabel(ls[i]) {
        forall k | 0 <= k < |ls[i]| ensures IsAlnum(ls[i][k]) || ls[i][k] == 45 {
          TokenBytes(name, DOT, i, ls[i][k]);
        }
      }
      assert JoinsLabels(name, ls);
    }
    if ls :| JoinsLabels(name, ls) {
      LabelsMakeFqdn(name, ls);
    }
  }

  lemma LabelsMakeFqdn(name: bytes, ls: seq<bytes>)
    requires JoinsLabels(name, ls)
    ensures IsFqdn(name)
  {
    hide Split, Join;
    forall i | 0 <= i < |ls| ensures DOT !in ls[i] {
      assert IsLabel(ls[i]);
    }
    SplitJoin(ls, DOT);
    JoinNotEmpty(ls, DOT);
    forall i | 0 <= i < |name| ensures IsAlnum(name[i]) || name[i] == 45 || name[i] == DOT {
      JoinBytes(ls, DOT, i);
      if name[i] != DOT {
        var k :| 0 <= k < |ls| && name[i] in ls[k];
        assert IsLabel(ls[k]);
      }
    }
  }

  /** `create_request` refuses a reverse lookup of what is no address, and any name that labels do not
      make; otherwise the request has the one question, under the given id. */
  lemma CreatedExactly(reqStr: bytes, typ: uint16, isIpV4: bool, id: uint16)
    ensures var (err, req) := CreateRequest(reqStr, typ, isIpV4, id);
            && (err == NoError <==> (typ == TYPE_PTR ==> isIpV4) && exists ls :: JoinsLabels(reqStr, ls))
            && err in {NoError, ReqStrErr}
            && (err == NoError ==> req.id == id && req.qCount == 1 && req.qlist == [Query(reqStr, typ, 1)])
  {
    hide IsFqdn;
    FqdnMeans(reqStr);
  }

  /** A reverse lookup of an address is always accepted, although the address is tested as a domain
      name too, and always reads back: under its in-addr.arpa name, with no answers and its own size. */
  lemma ReverseRequestRoundTrip(octets: bytes, id: uint16, p: bytes)
    requires |octets| == 4
    requires Holds(p, 0, RequestBytes(CreateRequest(DottedIp(octets), TYPE_PTR, true, id).1))
    ensures |p| >= HEADER_SIZE
    ensures var r := CreateRequest(DottedIp(octets), TYPE_PTR, true, id);
            && r.0 == NoError
            && ReadBody(p) == Some(Body([Query(ArpaName(DottedIp(octets)), TYPE_PTR, 1)], [], |RequestBytes(r.1)|))
  {
    hide RequestBytes, ReadBody, Holds, Split, DottedIp, ArpaName, IsFqdn;
    AddressIsFqdn(octets);
    var q := Query(DottedIp(octets), TYPE_PTR, 1);
    var req := Request(id, 1, [q]);
    ReverseLookup(octets);
    assert Readable(WireName(q)) by {
      assert |ARPA[0]| == 7 && |ARPA[1]| == 4;
    }
    RequestRoundTrip(p, req, id);
    assert Reported(req.qlist) == [q.(name := WireName(q))];
  }

  // ---------------------------------------------------------------- messages in general

  datatype WireQuestion = WireQuestion(labels: seq<bytes>, typ: uint16, cls: uint16)

  datatype WireData =
    | Address(octets: bytes)
    | NamePointer(labels: seq<bytes>)
    | Exchange(preference: nat, labels: seq<bytes>)

  datatype WireAnswer = WireAnswer(labels: seq<bytes>, cls: nat, ttl: nat, size: nat, data: WireData)

  function WireType(d: WireData): uint16 {
    match d case Address(_) => TYPE_A case NamePointer(_) => TYPE_PTR case Exchange(_, _) => TYPE_MX
  }

  /** A non-root domain name stands at `c`, compressed in any way that points backwards. */
  ghost predicate NameStands(p: bytes, c: nat, ls: seq<bytes>) {
    ls != [] && Encodes(p, c, c, ls)
  }

  /** Section 4.1.2 of RFC 1035. */
  ghost predicate QuestionStands(p: bytes, c: nat, q: WireQuestion) {
    && NameStands(p, c, q.labels)
    && NameEnd(p, c) + 4 <= |p|
    && Number(p, NameEnd(p, c), 2) == q.typ
    && Number(p, NameEnd(p, c) + 2, 2) == q.cls
  }

  /** The record data of sections 3.3.9, 3.3.12 and 3.4.1 of RFC 1035, from `c` to `end`. */
  ghost predicate DataStands(p: bytes, c: nat, d: WireData, end: nat) {
    match d
    case Address(octets) => |octets| == 4 && Holds(p, c, octets) && end == c + 4
    case NamePointer(ls) => NameStands(p, c, ls) && end == NameEnd(p, c)
    case Exchange(pref, ls) =>
      c + 2 <= |p| && Number(p, c, 2) == pref && NameStands(p, c + 2, ls) && end == NameEnd(p, c + 2)
  }

  /** Section 4.1.3 of RFC 1035; the data length field says where the data ends. */
  ghost predicate AnswerStands(p: bytes, c: nat, a: WireAnswer) {
    && NameStands(p, c, a.labels)
    && var e := NameEnd(p, c);
    && e + 10 <= |p|
    && Number(p, e, 2) == WireType(a.data) && Number(p, e + 2, 2) == a.cls && Number(p, e + 4, 4) == a.ttl
    && Number(p, e + 8, 2) == a.size && DataStands(p, e + 10, a.data, e + 10 + a.size)
  }

  ghost predicate QuestionsStand(p: bytes, c: nat, qs: seq<WireQuestion>, end: nat)
    decreases |qs|
  {
    if qs == [] then end == c
    else QuestionStands(p, c, qs[0]) && QuestionsStand(p, NameEnd(p, c) + 4, qs[1..], end)
  }

  ghost predicate AnswersStand(p: bytes, c: nat, answers: seq<WireAnswer>, end: nat)
    decreases |answers|
  {
    if answers == [] then end == c
    else AnswerStands(p, c, answers[0]) && AnswersStand(p, NameEnd(p, c) + 10 + answers[0].size, answers[1..], end)
  }

  function Dots(ls: seq<bytes>): bytes {
    Join(ls, DOT)
  }

  function QuestionMeaning(q: WireQuestion): Query {
    Query(Dots(q.labels), q.typ, q.cls)
  }

  function DataText(d: WireData): bytes {
    match d
    case Address(octets) => DottedIp(octets)
    case NamePointer(ls) => Dots(ls)
    case Exchange(_, ls) => Dots(ls)
  }

  /** What the parser should report for a record. */
  function AnswerMeaning(a: WireAnswer): Answer {
    Answer(Dots(a.labels), WireType(a.data), a.cls, a.ttl, a.size,
           if a.data.Exchange? then a.data.preference else 0, DataText(a.data))
  }

  function AnswerMeanings(answers: seq<WireAnswer>): seq<Answer> {
    seq(|answers|, i requires 0 <= i < |answers| => AnswerMeaning(answers[i]))
  }

  function QuestionMeanings(qs: seq<WireQuestion>): seq<Query> {
    seq(|qs|, i requires 0 <= i < |qs| => QuestionMeaning(qs[i]))
  }

  lemma OneStandingQuestion(p: bytes, c: nat, q: WireQuestion)
    requires QuestionStands(p, c, q)
    ensures c <= |p|
    ensures ReadQuestion(p, c) == Some((QuestionMeaning(q), NameEnd(p, c) + 4))
  {
    hide NameEnd, ReadName;
    Decompression(p, c, q.labels);
  }

  lemma {:induction false} StandingQuestionsRead(got: seq<Query>, p: bytes, c: nat, qs: seq<WireQuestion>, end: nat)
    requires QuestionsStand(p, c, qs, end)
    ensures QuestionsOnto(got, p, c, |qs|) == Some((got + QuestionMeanings(qs), end))
    decreases |qs|
  {
    hide QuestionStands, ReadQuestion, NameEnd, QuestionMeaning;
    if qs == [] {
      assert got + QuestionMeanings(qs) == got;
    } else {
      OneStandingQuestion(p, c, qs[0]);
      var got' := got + [QuestionMeaning(qs[0])];
      StandingQuestionsRead(got', p, NameEnd(p, c) + 4, qs[1..], end);
      assert QuestionMeanings(qs) == [QuestionMeaning(qs[0])] + QuestionMeanings(qs[1..]);
      assert got' + QuestionMeanings(qs[1..]) == got + QuestionMeanings(qs);
    }
  }

  lemma StandingDataReads(p: bytes, c: nat, d: WireData, end: nat)
    requires DataStands(p, c, d, end)
    ensures ReadData(p, c, WireType(d)) == Some((if d.Exchange? then d.preference else 0, DataText(d), end))
  {
    hide Encodes, NameEnd, ReadName, Number, DottedIp;
    match d {
      case Address(octets) =>
      case NamePointer(ls) => Decompression(p, c, ls);
      case Exchange(pref, ls) => Decompression(p, c + 2, ls);
    }
  }

  lemma OneStandingAnswer(p: bytes, c: nat, a: WireAnswer)
    requires AnswerStands(p, c, a)
    ensures c <= |p| && NameEnd(p, c) + 10 <= |p|
    ensures ReadAnswer(p, c) == Some((AnswerMeaning(a), NameEnd(p, c) + 10 + a.size))
  {
    hide NameEnd, ReadName, Number, DataStands, ReadData;
    Decompression(p, c, a.labels);
    StandingDataReads(p, NameEnd(p, c) + 10, a.data, NameEnd(p, c) + 10 + a.size);
  }

  lemma {:induction false} StandingAnswersRead(got: seq<Answer>, p: bytes, c: nat, answers: seq<WireAnswer>, end: nat)
    requires AnswersStand(p, c, answers, end)
    ensures AnswersOnto(got, p, c, |answers|) == Some((got + AnswerMeanings(answers), end))
    decreases |answers|
  {
    hide AnswerStands, ReadAnswer, NameEnd, AnswerMeaning;
    if answers == [] {
      assert got + AnswerMeanings(answers) == got;
    } else {
      OneStandingAnswer(p, c, answers[0]);
      var got' := got + [AnswerMeaning(answers[0])];
      StandingAnswersRead(got', p, NameEnd(p, c) + 10 + answers[0].size, answers[1..], end);
      assert AnswerMeanings(answers) == [AnswerMeaning(answers[0])] + AnswerMeanings(answers[1..]);
      assert got' + AnswerMeanings(answers[1..]) == got + AnswerMeanings(answers);
    }
  }

  /** The parser is right about every message in the format: whatever compression the names use, a
      response with questions and with address, pointer and mail exchange records is read as just
      those questions and records. */
  lemma MessageMeaning(p: bytes, qs: seq<WireQuestion>, answers: seq<WireAnswer>, mid: nat, end: nat)
    requires |p| >= HEADER_SIZE
    requires Number(p, 4, 2) == |qs| && Number(p, 6, 2) == |answers|
    requires QuestionsStand(p, HEADER_SIZE, qs, mid) && AnswersStand(p, mid, answers, end)
    ensures ReadBody(p) == Some(Body(QuestionMeanings(qs), AnswerMeanings(answers), end))
  {
    hide QuestionsStand, AnswersStand, QuestionsOnto, AnswersOnto, Number, QuestionMeanings, AnswerMeanings;
    StandingQuestionsRead([], p, HEADER_SIZE, qs, mid);
    StandingAnswersRead([], p, mid, answers, end);
    assert [] + QuestionMeanings(qs) == QuestionMeanings(qs);
    assert [] + AnswerMeanings(answers) == AnswerMeanings(answers);
  }
}
