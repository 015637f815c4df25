/** The SMTP session as a system of steps: a read completes, a reply has been sent, time runs out.
    Commands are pipelined, so lines are handled while earlier replies are still on their way, and
    sends may complete in any order.  The session object is proved to take these steps. */
module SmtpSession {
  import opened Bytes
  import Delimited
  import opened BufferView
  import opened PBuffer
  import opened SmtpBuffers
  import opened SmtpText
  import opened SmtpState
  import Capacity

  /** A reply that was handed to the socket, and whether its completion confirms a recipient. */
  datatype Send = Send(text: bytes, confirms: bool)

  datatype Reading = ReadingCommand | ReadingData | NotReading

  /** A command line that was handled, and the transaction it found. */
  datatype Entry = Entry(line: bytes, m: MailState)

  /** `sends` have not completed yet.  `thrown` is set when a buffer's overflow exception has left
      a completion handler; nothing catches it.  `handed` are the finished states given to the
      message handler, `log` the lines handled so far. */
  datatype Session = Session(mail: MailState, cmd: Buffer, sends: seq<Send>, reading: Reading, stopped: bool,
                             thrown: bool, handed: seq<MailState>, log: seq<Entry>)

  datatype Event =
    | CmdRead(ok: bool, chunk: bytes)
    | DataRead(ok: bool, chunk: bytes)
    | Sent(i: nat, ok: bool)
    | Timeout

  const EXCESS: bytes := Reply("500 ", Ascii("Excess command after DATA in the same transaction."))
  const ACCEPTED: bytes := Reply("250 ", Ascii("OK. 1460191710 b128si9046197lfb."))
  const COMMAND_ROOM: nat := 1024
  const DATA_ROOM: nat := 70000

  /** Both buffers have offsets and sizes that fit each other. */
  predicate Steady(s: Session) {
    Sound(s.cmd) && Sound(s.mail.data)
  }

  /** `_read_command`. */
  function ReadCommand(s: Session): (r: Session)
    requires Steady(s)
    ensures Steady(r)
  {
    match Room(s.cmd, COMMAND_ROOM)
    case None => s.(thrown := true)
    case Some(b) => s.(cmd := b, reading := ReadingCommand)
  }

  /** `_read_data`. */
  function ReadData(s: Session): (r: Session)
    requires Steady(s)
    ensures Steady(r)
  {
    match Room(s.mail.data, DATA_ROOM)
    case None => s.(thrown := true)
    case Some(b) => s.(mail := s.mail.(data := b), reading := ReadingData)
  }

  function Greeting(welcome: bytes): bytes {
    Reply("220 ", welcome)
  }

  function Start(welcome: bytes): (r: Session)
    ensures Steady(r)
  {
    ReadCommand(Session(NEW_MAIL, NEW_BUFFER, [Send(Greeting(welcome), false)], NotReading, false, false, [], []))
  }

  /** A command is run and answered. */
  function Commanded(hostname: bytes, s: Session, line: bytes): (r: Session)
    requires Steady(s)
    ensures Steady(r)
  {
    var r := HandleLine(hostname, s.mail, line);
    s.(mail := if r.err == NoError then r.m.(reply := []) else r.m,
       sends := s.sends + [Send(ReplyText(r), r.err == NoError && r.confirms)],
       stopped := s.stopped || r.m.closeConn)
  }

  /** `_begin_transaction`, one line of it. */
  function OneLine(hostname: bytes, s: Session): (r: Session)
    requires Steady(s) && s.cmd.view.lines != []
    ensures Steady(r)
  {
    var line := s.cmd.view.lines[0];
    var s1 := s.(cmd := s.cmd.(view := s.cmd.view.(lines := s.cmd.view.lines[1..])),
                 log := s.log + [Entry(line, s.mail)]);
    if s.mail.waiting then s1.(sends := s.sends + [Send(EXCESS, false)])
    else Commanded(hostname, s1, line)
  }

  /** `_begin_transaction` with no line left: compact, then read what the session waits for. */
  function StartReading(s: Session): (r: Session)
    requires Steady(s)
    ensures Steady(r)
  {
    var c := Compacted(CommandLines, CRLF, s.cmd);
    var s1 := s.(cmd := c.buffer);
    if !c.ok then s1.(thrown := true)
    else if s.mail.waiting then ReadData(s1.(mail := s.mail.(data := Cleared(MessageData, s.mail.data))))
    else ReadCommand(s1)
  }

  /** `_begin_transaction`: all queued lines, unless one closes the connection, then the next read. */
  function Begin(hostname: bytes, s: Session): (r: Session)
    requires Steady(s)
    ensures Steady(r)
    decreases |s.cmd.view.lines|
  {
    if s.cmd.view.lines == [] then StartReading(s)
    else
      var s1 := OneLine(hostname, s);
      if !s.mail.waiting && s1.mail.closeConn then s1 else Begin(hostname, s1)
  }

  /** The finished state goes to the message handler and a new one takes its place, with the
      greeting carried over. */
  function HandedOver(s: Session): (r: Session)
    requires Steady(s)
    ensures Steady(r) && r.stopped == s.stopped
  {
    s.(sends := s.sends + [Send(ACCEPTED, false)],
       handed := s.handed + [s.mail],
       mail := ResetMail(NEW_MAIL.(heloInited := s.mail.heloInited, heloText := s.mail.heloText)),
       reading := NotReading)
  }

  /** `_data_acceepted`. */
  function DataDone(s: Session): (r: Session)
    requires Steady(s)
    ensures Steady(r)
  {
    if s.stopped then HandedOver(s) else ReadCommand(HandedOver(s))
  }

  /** A read completes with no more than there was room for; after an exception nothing happens. */
  predicate Enabled(s: Session, e: Event)
    requires Steady(s)
  {
    && !s.thrown
    && match e
       case CmdRead(ok, chunk) => s.reading == ReadingCommand && (ok ==> |chunk| <= Capacity.Avail(s.cmd.mem))
       case DataRead(ok, chunk) => s.reading == ReadingData && (ok ==> |chunk| <= Capacity.Avail(s.mail.data.mem))
       case Sent(i, _) => i < |s.sends|
       case Timeout => true
  }

  function Step(hostname: bytes, s: Session, e: Event): (r: Session)
    requires Steady(s) && Enabled(s, e)
    ensures Steady(r)
  {
    match e
    case CmdRead(ok, chunk) =>
      if !ok then s.(reading := NotReading, stopped := true)
      else Begin(hostname, s.(reading := NotReading, cmd := TakeIn(CommandLines, CRLF, s.cmd, chunk)))
    case DataRead(ok, chunk) =>
      if !ok then s.(reading := NotReading, stopped := true)
      else
        var s1 := s.(reading := NotReading,
                     mail := s.mail.(data := TakeIn(MessageData, END_OF_DATA, s.mail.data, chunk)));
        if s1.mail.data.view.dataEnd == 0 then ReadData(s1) else DataDone(s1)
    case Sent(i, ok) =>
      var s1 := s.(sends := s.sends[..i] + s.sends[i + 1..]);
      if !ok then s1.(stopped := true)
      else if s.sends[i].confirms then s1.(mail := s.mail.(unsended := s.mail.unsended - 1))
      else s1
    case Timeout => s.(stopped := true)
  }

  // ---------------------------------------------------------------- what a run has seen

  /** What the network has done so far: all bytes read as commands, the bytes read as data since
      commands were last read, and how many sends that would have confirmed a recipient failed. */
  datatype Seen = Seen(commands: bytes, data: bytes, failed: nat)

  function Note(s: Session, seen: Seen, e: Event): Seen {
    match e
    case CmdRead(ok, chunk) => if ok then seen.(commands := seen.commands + chunk, data := []) else seen
    case DataRead(ok, chunk) => if ok then seen.(data := seen.data + chunk) else seen
    case Sent(i, ok) =>
      if i < |s.sends| && s.sends[i].confirms && !ok then seen.(failed := seen.failed + 1) else seen
    case Timeout => seen
  }

  /** The confirmations still on their way. */
  function Confirms(sends: seq<Send>): nat {
    if sends == [] then 0 else Confirms(sends[..|sends| - 1]) + (if sends[|sends| - 1].confirms then 1 else 0)
  }

  function LinesOf(log: seq<Entry>): seq<bytes> {
    seq(|log|, i requires 0 <= i < |log| => log[i].line)
  }

  /** An accepted command of a kind. */
  predicate Takes(hostname: bytes, e: Entry, h: Handler) {
    !e.m.waiting && HandlerOf(e.line) == Some(h) && HandleLine(hostname, e.m, e.line).err == NoError
  }

  /** An accepted RCPT with a recipient not had before. */
  predicate TakesRecipient(hostname: bytes, e: Entry, a: EmailAddr) {
    !e.m.waiting && HandleLine(hostname, e.m, e.line).confirms && NewRecipient(e.line) == a
  }

  function AcceptedData(hostname: bytes, log: seq<Entry>): nat {
    if log == [] then 0
    else AcceptedData(hostname, log[..|log| - 1]) + (if Takes(hostname, log[|log| - 1], Data) then 1 else 0)
  }

  /** When the last sender was accepted: its place in the log, -1 if there is none. */
  function SenderAt(hostname: bytes, log: seq<Entry>): (k: int)
    ensures -1 <= k < |log|
  {
    if log == [] then -1
    else if Takes(hostname, log[|log| - 1], Mail) then |log| - 1 else SenderAt(hostname, log[..|log| - 1])
  }

  /** When the recipient was last accepted as a new one. */
  function RecipientAt(hostname: bytes, log: seq<Entry>, a: EmailAddr): (k: int)
    ensures -1 <= k < |log|
  {
    if log == [] then -1
    else if TakesRecipient(hostname, log[|log| - 1], a) then |log| - 1 else RecipientAt(hostname, log[..|log| - 1], a)
  }

  /** When the last greeting was accepted, -1 if there is none. */
  function GreetingAt(hostname: bytes, log: seq<Entry>): (k: int)
    ensures -1 <= k < |log|
  {
    if log == [] then -1
    else if Takes(hostname, log[|log| - 1], Helo) then |log| - 1 else GreetingAt(hostname, log[..|log| - 1])
  }

  /** The session knows its client by the argument of the last HELO it accepted, and the sender by that
      of the last MAIL. */
  ghost predicate Remembers(hostname: bytes, log: seq<Entry>, m: MailState) {
    && (m.heloInited <==> GreetingAt(hostname, log) >= 0)
    && (m.heloInited ==> ParseHelo(log[GreetingAt(hostname, log)].line) == Good(m.heloText))
    && (m.mailFrom.inited ==> SenderAt(hostname, log) >= 0)
    && (m.mailFrom.inited ==> ParseMailFrom(log[SenderAt(hostname, log)].line) == Good(m.mailFrom))
  }

  /** The recipients that were there when the sender came are exactly those accepted before it. */
  ghost predicate Chronicled(hostname: bytes, log: seq<Entry>, m: MailState) {
    m.mailFrom.inited ==>
      var k := SenderAt(hostname, log);
      && k >= 0 && log[k].m.rcpts <= m.rcpts
      && forall a :: a in m.rcpts ==>
           var j := RecipientAt(hostname, log, a);
           j >= 0 && if a in log[k].m.rcpts then j < k else j > k
  }

  // ---------------------------------------------------------------- the invariant

  /** A state that was handed over is a complete transaction with its data. */
  ghost predicate Complete(m: MailState) {
    && InOrder(m) && m.waiting && m.rcpts != {} && m.mailFrom.inited && m.heloInited
    && m.data.view.dataEnd > 0 && HasRecorded(END_OF_DATA, m.data.view)
  }

  /** Both buffers agree with what was read into them. */
  ghost predicate BuffersOk(s: Session, seen: Seen) {
    && Steady(s)
    && Tracks(CRLF, CmdState(s.cmd.view, LinesOf(s.log)), seen.commands)
    && HasRecorded(END_OF_DATA, s.mail.data.view)
  }

  ghost predicate AllComplete(ms: seq<MailState>) {
    forall i :: 0 <= i < |ms| ==> Complete(ms[i])
  }

  /** What holds at every moment, also between two lines. */
  ghost predicate Core(hostname: bytes, s: Session, seen: Seen) {
    && BuffersOk(s, seen)
    && InOrder(s.mail)
    && s.mail.unsended == Confirms(s.sends) + seen.failed
    && (seen.failed > 0 ==> s.stopped)
    && AllComplete(s.handed)
    && AcceptedData(hostname, s.log) == |s.handed| + (if s.mail.waiting then 1 else 0)
    && Chronicled(hostname, s.log, s.mail)
    && Remembers(hostname, s.log, s.mail)
  }

  /** What holds between events: besides, a session reads data only when it waits for data, into
      enough room, and the data buffer holds what was read; and an open session always reads. */
  ghost predicate Inv(hostname: bytes, s: Session, seen: Seen) {
    && Core(hostname, s, seen)
    && ReadsWell(s, seen)
  }

  ghost predicate ReadsWell(s: Session, seen: Seen)
    requires Steady(s)
  {
    && (s.reading == ReadingCommand ==> Capacity.Avail(s.cmd.mem) >= COMMAND_ROOM)
    && (s.reading == ReadingData ==>
          s.mail.waiting && s.mail.data.view.filled == seen.data && Capacity.Avail(s.mail.data.mem) >= DATA_ROOM)
    && (!s.stopped && !s.thrown ==> s.reading == if s.mail.waiting then ReadingData else ReadingCommand)
  }

  // ---------------------------------------------------------------- counting

  lemma ConfirmsSnoc(sends: seq<Send>, x: Send)
    ensures Confirms(sends + [x]) == Confirms(sends) + (if x.confirms then 1 else 0)
  {
    assert (sends + [x])[..|sends|] == sends;
  }

  /** Completing a send takes exactly its own confirmation away, wherever it stood. */
  lemma {:induction false} ConfirmsRemove(sends: seq<Send>, i: nat)
    requires i < |sends|
    ensures Confirms(sends[..i] + sends[i + 1..]) + (if sends[i].confirms then 1 else 0) == Confirms(sends)
    decreases |sends|
  {
    var init, last := sends[..|sends| - 1], sends[|sends| - 1];
    if i == |sends| - 1 {
      assert sends[..i] + sends[i + 1..] == init;
    } else {
      ConfirmsRemove(init, i);
      assert sends[..i] + sends[i + 1..] == (init[..i] + init[i + 1..]) + [last];
      ConfirmsSnoc(init[..i] + init[i + 1..], last);
    }
  }

  lemma LogSnoc(hostname: bytes, log: seq<Entry>, e: Entry)
    ensures LinesOf(log + [e]) == LinesOf(log) + [e.line]
    ensures AcceptedData(hostname, log + [e])
         == AcceptedData(hostname, log) + (if Takes(hostname, e, Data) then 1 else 0)
    ensures SenderAt(hostname, log + [e]) == if Takes(hostname, e, Mail) then |log| else SenderAt(hostname, log)
    ensures GreetingAt(hostname, log + [e]) == if Takes(hostname, e, Helo) then |log| else GreetingAt(hostname, log)
  {
    hide Takes;
    assert (log + [e])[..|log|] == log;
  }

  lemma RecipientSnoc(hostname: bytes, log: seq<Entry>, e: Entry, a: EmailAddr)
    ensures RecipientAt(hostname, log + [e], a)
         == if TakesRecipient(hostname, e, a) then |log| else RecipientAt(hostname, log, a)
  {
    hide TakesRecipient;
    assert (log + [e])[..|log|] == log;
  }

  // ---------------------------------------------------------------- one line

  /** The transaction after a line, as `OneLine` leaves it. */
  function After(hostname: bytes, m: MailState, line: bytes): MailState {
    if m.waiting then m
    else
      var r := HandleLine(hostname, m, line);
      if r.err == NoError then r.m.(reply := []) else r.m
  }

  lemma OneLineShape(hostname: bytes, s: Session)
    requires Steady(s) && s.cmd.view.lines != []
    ensures var (s1, line) := (OneLine(hostname, s), s.cmd.view.lines[0]);
            && s1.reading == s.reading && s1.thrown == s.thrown && s1.handed == s.handed
            && s1.cmd == s.cmd.(view := s.cmd.view.(lines := s.cmd.view.lines[1..]))
            && s1.mail == After(hostname, s.mail, line)
            && s1.log == s.log + [Entry(line, s.mail)]
            && (s.stopped ==> s1.stopped)
            && (!s.mail.waiting && s1.mail.closeConn ==> s1.stopped)
            && |s1.sends| == |s.sends| + 1 && s1.sends[..|s.sends|] == s.sends
  {
    hide HandleLine, ReplyText;
  }

  lemma OneLineBuffers(hostname: bytes, s: Session, seen: Seen)
    requires BuffersOk(s, seen) && s.cmd.view.lines != []
    ensures BuffersOk(OneLine(hostname, s), seen)
  {
    hide WellParsed, UpToDate, Delimited.Lines, Delimited.Rest, HandleLine, ReplyText, HasRecorded;
    var st := CmdState(s.cmd.view, LinesOf(s.log));
    StepTracks(CRLF, st, TakeLine, seen.commands);
    assert seen.commands + [] == seen.commands;
    LogSnoc(hostname, s.log, Entry(s.cmd.view.lines[0], s.mail));
    FreshHasRecorded(END_OF_DATA);
  }

  lemma OneLineCounts(hostname: bytes, s: Session)
    requires Steady(s) && s.cmd.view.lines != [] && InOrder(s.mail)
    ensures var s1 := OneLine(hostname, s);
            && InOrder(s1.mail) && (s.mail.heloInited ==> s1.mail.heloInited)
            && s1.mail.unsended - s.mail.unsended == Confirms(s1.sends) - Confirms(s.sends)
  {
    hide HandleLine, ReplyText;
    var line := s.cmd.view.lines[0];
    if s.mail.waiting {
      ConfirmsSnoc(s.sends, Send(EXCESS, false));
    } else {
      var r := HandleLine(hostname, s.mail, line);
      HandlersOblige(hostname, s.mail, line);
      ConfirmsSnoc(s.sends, Send(ReplyText(r), r.err == NoError && r.confirms));
    }
  }

  lemma OneLineData(hostname: bytes, m: MailState, line: bytes)
    ensures (if After(hostname, m, line).waiting then 1 else 0)
         == (if m.waiting then 1 else 0) + (if Takes(hostname, Entry(line, m), Data) then 1 else 0)
  {
    hide HandleLine, HandlerOf;
    if !m.waiting {
      WaitsAfterData(hostname, m, line);
    }
  }

  /** What a line does to sender and recipients: it brings a sender, or it brings a recipient, or, as
      long as there is a sender, it leaves both alone. */
  lemma TransactionAfter(hostname: bytes, m: MailState, line: bytes)
    ensures var (m', e, a) := (After(hostname, m, line), Entry(line, m), NewRecipient(line));
            if Takes(hostname, e, Mail) then
              m'.rcpts == m.rcpts && !TakesRecipient(hostname, e, a)
            else if TakesRecipient(hostname, e, a) then
              m'.rcpts == m.rcpts + {a} && a !in m.rcpts && m'.mailFrom == m.mailFrom
            else
              m'.mailFrom.inited ==> m'.rcpts == m.rcpts && m'.mailFrom == m.mailFrom
  {
    hide HandleLine, HandlerOf, NewRecipient;
    if !m.waiting {
      TransactionChanges(hostname, m, line);
    }
  }

  lemma OnlyThatRecipient(hostname: bytes, e: Entry, a: EmailAddr)
    requires a != NewRecipient(e.line)
    ensures !TakesRecipient(hostname, e, a)
  {
    hide HandleLine, NewRecipient;
  }

  /** A new sender finds the recipients there are; a new recipient comes after the sender. */
  lemma OneLineChronicled(hostname: bytes, log: seq<Entry>, m: MailState, line: bytes)
    requires Chronicled(hostname, log, m) && InOrder(m)
    ensures Chronicled(hostname, log + [Entry(line, m)], After(hostname, m, line))
  {
    hide After, Takes, TakesRecipient, NewRecipient, SenderAt, RecipientAt;
    var e, m' := Entry(line, m), After(hostname, m, line);
    LogSnoc(hostname, log, e);
    TransactionAfter(hostname, m, line);
    if m'.mailFrom.inited {
      forall a | a in m'.rcpts
        ensures var (k, j) := (SenderAt(hostname, log + [e]), RecipientAt(hostname, log + [e], a));
                k >= 0 && j >= 0 && if a in (log + [e])[k].m.rcpts then j < k else j > k
      {
        RecipientSnoc(hostname, log, e, a);
        if a != NewRecipient(line) {
          OnlyThatRecipient(hostname, e, a);
        }
      }
    }
  }

  /** What a line does to the names: it brings a greeting, or a sender, or, as long as there is a
      sender, it leaves both alone. */
  lemma NamesAfter(hostname: bytes, m: MailState, line: bytes)
    ensures var (m', e) := (After(hostname, m, line), Entry(line, m));
            && (if Takes(hostname, e, Helo) then m'.heloInited && ParseHelo(line) == Good(m'.heloText)
                else m'.heloInited == m.heloInited && m'.heloText == m.heloText)
            && (if Takes(hostname, e, Mail) then ParseMailFrom(line) == Good(m'.mailFrom)
                else m'.mailFrom.inited ==> m'.mailFrom == m.mailFrom)
  {
    hide HandleLine, HandlerOf, NewRecipient, ParseHelo, ParseMailFrom;
    if !m.waiting {
      TransactionChanges(hostname, m, line);
      GreetingChanges(hostname, m, line);
    }
  }

  lemma OneLineRemembers(hostname: bytes, log: seq<Entry>, m: MailState, line: bytes)
    requires Remembers(hostname, log, m)
    ensures Remembers(hostname, log + [Entry(line, m)], After(hostname, m, line))
  {
    hide After, Takes, ParseHelo, ParseMailFrom, GreetingAt, SenderAt, AcceptedData;
    LogSnoc(hostname, log, Entry(line, m));
    NamesAfter(hostname, m, line);
  }

  lemma OneLineKeeps(hostname: bytes, s: Session, seen: Seen)
    requires Core(hostname, s, seen) && s.cmd.view.lines != []
    ensures Core(hostname, OneLine(hostname, s), seen)
    ensures s.mail.heloInited ==> OneLine(hostname, s).mail.heloInited
  {
    hide BuffersOk, Steady, OneLine, After, InOrder, Chronicled, Remembers, AllComplete, Confirms, AcceptedData, Takes;
    BuffersAreSteady(s, seen);
    var line := s.cmd.view.lines[0];
    OneLineShape(hostname, s);
    OneLineBuffers(hostname, s, seen);
    OneLineCounts(hostname, s);
    OneLineData(hostname, s.mail, line);
    LogSnoc(hostname, s.log, Entry(line, s.mail));
    OneLineChronicled(hostname, s.log, s.mail, line);
    OneLineRemembers(hostname, s.log, s.mail, line);
  }

  lemma BuffersAreSteady(s: Session, seen: Seen)
    requires BuffersOk(s, seen)
    ensures Steady(s)
  {
  }

  // ---------------------------------------------------------------- reading

  lemma ClearedHasRecorded(b: Buffer)
    requires Sound(b) && HasRecorded(END_OF_DATA, b.view)
    ensures HasRecorded(END_OF_DATA, Cleared(MessageData, b).view) && Cleared(MessageData, b).view.filled == []
  {
    hide WellParsed, UpToDate, Delimited.Lines;
    ResetIsParsed(END_OF_DATA, Cleared(MessageData, b).view);
    NothingInNothing(END_OF_DATA);
  }

  lemma CompactedTracks(b: Buffer, delivered: seq<bytes>, stream: bytes)
    requires Sound(b) && Tracks(CRLF, CmdState(b.view, delivered), stream)
    ensures Tracks(CRLF, CmdState(Compacted(CommandLines, CRLF, b).buffer.view, delivered), stream)
  {
    hide Tracks, Reduced;
    StepTracks(CRLF, CmdState(b.view, delivered), Compact, stream);
    assert stream + [] == stream;
  }

  lemma TakenInTracks(b: Buffer, delivered: seq<bytes>, stream: bytes, chunk: bytes)
    requires Sound(b) && |chunk| <= Capacity.Avail(b.mem) && Tracks(CRLF, CmdState(b.view, delivered), stream)
    ensures Tracks(CRLF, CmdState(TakeIn(CommandLines, CRLF, b, chunk).view, delivered), stream + chunk)
  {
    hide Tracks, Accepted;
    StepTracks(CRLF, CmdState(b.view, delivered), Chunk(chunk), stream);
  }

  /** Making room, or failing to, changes nothing else. */
  lemma ReadCommandKeeps(hostname: bytes, s: Session, seen: Seen)
    requires Core(hostname, s, seen) && s.reading == NotReading && (s.stopped || !s.mail.waiting)
    ensures Inv(hostname, ReadCommand(s), seen) && ReadCommand(s).mail == s.mail
  {
    hide Tracks, HasRecorded, InOrder, Chronicled, Remembers, AllComplete, Confirms, AcceptedData;
  }

  lemma ReadDataKeeps(hostname: bytes, s: Session, seen: Seen)
    requires Core(hostname, s, seen) && s.reading == NotReading
    requires s.mail.waiting && s.mail.data.view.filled == seen.data
    ensures Inv(hostname, ReadData(s), seen) && ReadData(s).mail.heloInited == s.mail.heloInited
  {
    hide Tracks, HasRecorded, AllComplete, Confirms, AcceptedData, InOrder, Chronicled, Remembers, Sound;
    DataIsApart(hostname, s.log, s.mail, ReadData(s).mail.data);
  }

  /** The transaction's order and history do not depend on its data. */
  lemma DataIsApart(hostname: bytes, log: seq<Entry>, m: MailState, data: Buffer)
    ensures InOrder(m.(data := data)) == InOrder(m)
    ensures Chronicled(hostname, log, m.(data := data)) == Chronicled(hostname, log, m)
    ensures Remembers(hostname, log, m.(data := data)) == Remembers(hostname, log, m)
  {
    hide SenderAt, RecipientAt, GreetingAt;
  }

  lemma CompactedKeeps(hostname: bytes, s: Session, seen: Seen)
    requires Core(hostname, s, seen)
    ensures Steady(s) && Core(hostname, s.(cmd := Compacted(CommandLines, CRLF, s.cmd).buffer), seen)
  {
    hide Tracks, HasRecorded, InOrder, Chronicled, Remembers, AllComplete, Confirms, AcceptedData, Compacted;
    CompactedTracks(s.cmd, LinesOf(s.log), seen.commands);
  }

  lemma ClearedKeeps(hostname: bytes, s: Session, seen: Seen)
    requires Core(hostname, s, seen)
    ensures Steady(s) && Core(hostname, s.(mail := s.mail.(data := Cleared(MessageData, s.mail.data))), seen)
  {
    hide Tracks, HasRecorded, AllComplete, Confirms, AcceptedData, InOrder, Chronicled, Remembers, Cleared;
    ClearedHasRecorded(s.mail.data);
    DataIsApart(hostname, s.log, s.mail, Cleared(MessageData, s.mail.data));
  }

  lemma StartReadingKeeps(hostname: bytes, s: Session, seen: Seen)
    requires Core(hostname, s, seen) && s.reading == NotReading && seen.data == []
    ensures Inv(hostname, StartReading(s), seen) && StartReading(s).mail.heloInited == s.mail.heloInited
  {
    hide Core, ReadCommand, ReadData, Compacted;
    CompactedKeeps(hostname, s, seen);
    var c := Compacted(CommandLines, CRLF, s.cmd);
    var s1 := s.(cmd := c.buffer);
    if c.ok {
      if s.mail.waiting {
        ClearedKeeps(hostname, s1, seen);
        ReadDataKeeps(hostname, s1.(mail := s.mail.(data := Cleared(MessageData, s.mail.data))), seen);
      } else {
        ReadCommandKeeps(hostname, s1, seen);
      }
    } else {
      ThrownIsInv(hostname, s1, seen);
    }
  }

  lemma ThrownIsInv(hostname: bytes, s: Session, seen: Seen)
    requires Core(hostname, s, seen) && s.reading == NotReading
    ensures Inv(hostname, s.(thrown := true), seen)
  {
    hide Tracks, HasRecorded, InOrder, Chronicled, Remembers, AllComplete, Confirms, AcceptedData;
  }

  lemma {:induction false} BeginKeeps(hostname: bytes, s: Session, seen: Seen)
    requires Core(hostname, s, seen) && s.reading == NotReading && seen.data == []
    ensures Inv(hostname, Begin(hostname, s), seen)
    ensures s.mail.heloInited ==> Begin(hostname, s).mail.heloInited
    decreases |s.cmd.view.lines|
  {
    hide OneLine, StartReading, Core, Inv;
    CoreIsSteady(hostname, s, seen);
    if s.cmd.view.lines == [] {
      StartReadingKeeps(hostname, s, seen);
    } else {
      OneLineKeeps(hostname, s, seen);
      OneLineShape(hostname, s);
      var s1 := OneLine(hostname, s);
      if !s.mail.waiting && s1.mail.closeConn {
        StoppedIsInv(hostname, s1, seen);
      } else {
        BeginKeeps(hostname, s1, seen);
      }
    }
  }

  lemma CoreIsSteady(hostname: bytes, s: Session, seen: Seen)
    requires Core(hostname, s, seen)
    ensures Steady(s)
  {
  }

  lemma StoppedIsInv(hostname: bytes, s: Session, seen: Seen)
    requires Core(hostname, s, seen) && s.reading == NotReading && s.stopped
    ensures Inv(hostname, s, seen)
  {
    hide Core;
    CoreIsSteady(hostname, s, seen);
  }

  // ---------------------------------------------------------------- every event

  lemma HandedOverKeeps(hostname: bytes, s: Session, seen: Seen)
    requires Core(hostname, s, seen) && s.mail.waiting && s.mail.data.view.dataEnd > 0
    ensures Steady(s) && Core(hostname, HandedOver(s), seen)
    ensures var s' := HandedOver(s);
            && s'.reading == NotReading && !s'.mail.waiting
            && s'.mail.heloInited == s.mail.heloInited && s'.handed == s.handed + [s.mail]
  {
    hide Tracks, HasRecorded, AcceptedData, SenderAt, RecipientAt, GreetingAt, Confirms, Takes;
    FreshHasRecorded(END_OF_DATA);
    ConfirmsSnoc(s.sends, Send(ACCEPTED, false));
  }

  lemma DataDoneKeeps(hostname: bytes, s: Session, seen: Seen)
    requires Core(hostname, s, seen) && s.reading == NotReading && s.mail.waiting && s.mail.data.view.dataEnd > 0
    ensures Steady(s) && Inv(hostname, DataDone(s), seen) && DataDone(s).mail.heloInited == s.mail.heloInited
    ensures DataDone(s).handed == s.handed + [s.mail]
  {
    hide Core, Inv, ReadCommand, HandedOver, Steady;
    HandedOverKeeps(hostname, s, seen);
    if s.stopped {
      StoppedIsInv(hostname, HandedOver(s), seen);
    } else {
      ReadCommandKeeps(hostname, HandedOver(s), seen);
      RoomOnly(HandedOver(s));
    }
  }

  lemma RoomOnly(s: Session)
    requires Steady(s)
    ensures ReadCommand(s).handed == s.handed && ReadData(s).handed == s.handed
    ensures ReadCommand(s).log == s.log && ReadData(s).log == s.log
    ensures ReadCommand(s).sends == s.sends && ReadData(s).sends == s.sends
    ensures ReadCommand(s).stopped == s.stopped && ReadData(s).stopped == s.stopped
  {
  }

  lemma DataTaken(hostname: bytes, s: Session, seen: Seen, chunk: bytes)
    requires Inv(hostname, s, seen) && s.reading == ReadingData
    requires |chunk| <= Capacity.Avail(s.mail.data.mem)
    ensures var s1 := s.(reading := NotReading,
                         mail := s.mail.(data := TakeIn(MessageData, END_OF_DATA, s.mail.data, chunk)));
            && Core(hostname, s1, seen.(data := seen.data + chunk))
            && s1.mail.data.view.filled == seen.data + chunk && s1.mail.waiting
  {
    hide Tracks, HasRecorded, AllComplete, Confirms, AcceptedData, InOrder, Chronicled, Remembers, Accepted;
    DataGrows(END_OF_DATA, s.mail.data.view, chunk);
    DataIsApart(hostname, s.log, s.mail, TakeIn(MessageData, END_OF_DATA, s.mail.data, chunk));
  }

  lemma DataReadKeeps(hostname: bytes, s: Session, seen: Seen, chunk: bytes)
    requires Inv(hostname, s, seen) && Enabled(s, DataRead(true, chunk))
    ensures var s' := Step(hostname, s, DataRead(true, chunk));
            && Inv(hostname, s', seen.(data := seen.data + chunk))
            && s'.mail.heloInited == s.mail.heloInited
  {
    DataTaken(hostname, s, seen, chunk);
    hide Core, Inv, TakeIn, ReadData, DataDone, Steady;
    var s1 := s.(reading := NotReading,
                 mail := s.mail.(data := TakeIn(MessageData, END_OF_DATA, s.mail.data, chunk)));
    var seen' := seen.(data := seen.data + chunk);
    CoreIsSteady(hostname, s1, seen');
    if s1.mail.data.view.dataEnd == 0 {
      ReadDataKeeps(hostname, s1, seen');
    } else {
      DataDoneKeeps(hostname, s1, seen');
    }
  }

  lemma CommandsTaken(hostname: bytes, s: Session, seen: Seen, chunk: bytes)
    requires Core(hostname, s, seen) && Steady(s) && |chunk| <= Capacity.Avail(s.cmd.mem)
    ensures Core(hostname, s.(reading := NotReading, cmd := TakeIn(CommandLines, CRLF, s.cmd, chunk)),
                 seen.(commands := seen.commands + chunk, data := []))
  {
    hide Tracks, HasRecorded, InOrder, Chronicled, Remembers, AllComplete, Confirms, AcceptedData, TakeIn;
    TakenInTracks(s.cmd, LinesOf(s.log), seen.commands, chunk);
  }

  lemma CmdReadKeeps(hostname: bytes, s: Session, seen: Seen, chunk: bytes)
    requires Inv(hostname, s, seen) && Enabled(s, CmdRead(true, chunk))
    ensures var s' := Step(hostname, s, CmdRead(true, chunk));
            && Inv(hostname, s', seen.(commands := seen.commands + chunk, data := []))
            && (s.mail.heloInited ==> s'.mail.heloInited)
  {
    CommandsTaken(hostname, s, seen, chunk);
    hide Core, Inv, TakeIn, Begin;
    BeginKeeps(hostname, s.(reading := NotReading, cmd := TakeIn(CommandLines, CRLF, s.cmd, chunk)),
               seen.(commands := seen.commands + chunk, data := []));
  }

  /** A send that completes takes its confirmation from the count, or leaves it there for ever. */
  lemma SentKeeps(hostname: bytes, s: Session, seen: Seen, i: nat, ok: bool)
    requires Inv(hostname, s, seen) && Enabled(s, Sent(i, ok))
    ensures var s' := Step(hostname, s, Sent(i, ok));
            Inv(hostname, s', Note(s, seen, Sent(i, ok))) && s'.mail.heloInited == s.mail.heloInited
  {
    hide Tracks, HasRecorded, AllComplete, Confirms, AcceptedData, Chronicled, Remembers, Sound;
    ConfirmsRemove(s.sends, i);
    CountIsApart(hostname, s.log, s.mail, s.mail.unsended - 1);
  }

  /** Its history does not depend on the count of unsent replies. */
  lemma CountIsApart(hostname: bytes, log: seq<Entry>, m: MailState, n: int)
    ensures Chronicled(hostname, log, m.(unsended := n)) == Chronicled(hostname, log, m)
    ensures Remembers(hostname, log, m.(unsended := n)) == Remembers(hostname, log, m)
  {
    hide SenderAt, RecipientAt, GreetingAt;
  }

  lemma StoppedKeeps(hostname: bytes, s: Session, seen: Seen)
    requires Inv(hostname, s, seen)
    ensures Inv(hostname, s.(stopped := true), seen)
    ensures Inv(hostname, s.(reading := NotReading, stopped := true), seen)
  {
    hide Tracks, HasRecorded, InOrder, Chronicled, Remembers, AllComplete, Confirms, AcceptedData;
  }

  /** Every event keeps the invariant, and no event loses the greeting. */
  lemma StepKeeps(hostname: bytes, s: Session, seen: Seen, e: Event)
    requires Steady(s) && Inv(hostname, s, seen) && Enabled(s, e)
    ensures Inv(hostname, Step(hostname, s, e), Note(s, seen, e))
    ensures s.mail.heloInited ==> Step(hostname, s, e).mail.heloInited
  {
    hide Inv, TakeIn, Begin, ReadData, DataDone;
    StoppedKeeps(hostname, s, seen);
    match e {
      case CmdRead(ok, chunk) => if ok { CmdReadKeeps(hostname, s, seen, chunk); }
      case DataRead(ok, chunk) => if ok { DataReadKeeps(hostname, s, seen, chunk); }
      case Sent(i, ok) => SentKeeps(hostname, s, seen, i, ok);
      case Timeout =>
    }
  }

  // ---------------------------------------------------------------- runs

  datatype Moment = Moment(s: Session, seen: Seen)

  /** Each event could happen when it did. */
  ghost predicate Possible(hostname: bytes, welcome: bytes, events: seq<Event>)
    decreases |events|, 0
  {
    if events == [] then true
    else
      var init := events[..|events| - 1];
      Possible(hostname, welcome, init) && Enabled(Run(hostname, welcome, init).s, events[|events| - 1])
  }

  /** A run, oldest event first. */
  ghost function Run(hostname: bytes, welcome: bytes, events: seq<Event>): (r: Moment)
    requires Possible(hostname, welcome, events)
    ensures Steady(r.s) && Inv(hostname, r.s, r.seen)
    decreases |events|, 1
  {
    if events == [] then
      StartIsFine(hostname, welcome);
      Moment(Start(welcome), Seen([], [], 0))
    else
      var r, e := Run(hostname, welcome, events[..|events| - 1]), events[|events| - 1];
      StepKeeps(hostname, r.s, r.seen, e);
      Moment(Step(hostname, r.s, e), Note(r.s, r.seen, e))
  }

  lemma StartIsFine(hostname: bytes, welcome: bytes)
    ensures Inv(hostname, Start(welcome), Seen([], [], 0))
  {
    hide Tracks, HasRecorded, ReadCommand, Greeting;
    var s := Session(NEW_MAIL, NEW_BUFFER, [Send(Greeting(welcome), false)], NotReading, false, false, [], []);
    FreshTracks(CRLF);
    FreshHasRecorded(END_OF_DATA);
    assert LinesOf([]) == [];
    assert Confirms(s.sends) == 0;
    assert Core(hostname, s, Seen([], [], 0));
    ReadCommandKeeps(hostname, s, Seen([], [], 0));
  }

  /** All bytes read as commands. */
  function CommandBytes(events: seq<Event>): bytes {
    if events == [] then []
    else
      CommandBytes(events[..|events| - 1]) + match events[|events| - 1] case CmdRead(true, chunk) => chunk case _ => []
  }

  /** The bytes read as message data since commands were last read. */
  function MessageBytes(events: seq<Event>): bytes {
    if events == [] then []
    else match events[|events| - 1]
      case CmdRead(true, _) => []
      case DataRead(true, chunk) => MessageBytes(events[..|events| - 1]) + chunk
      case _ => MessageBytes(events[..|events| - 1])
  }

  /** How many sends failed that would have confirmed a recipient. */
  ghost function FailedConfirms(hostname: bytes, welcome: bytes, events: seq<Event>): nat
    requires Possible(hostname, welcome, events)
  {
    if events == [] then 0
    else
      var init := events[..|events| - 1];
      FailedConfirms(hostname, welcome, init)
      + match events[|events| - 1]
        case Sent(i, false) => (if Run(hostname, welcome, init).s.sends[i].confirms then 1 else 0)
        case _ => 0
  }

  lemma {:induction false} SeenIs(hostname: bytes, welcome: bytes, events: seq<Event>)
    requires Possible(hostname, welcome, events)
    ensures Run(hostname, welcome, events).seen
         == Seen(CommandBytes(events), MessageBytes(events), FailedConfirms(hostname, welcome, events))
    decreases |events|
  {
    hide Step, Inv;
    if events != [] {
      SeenIs(hostname, welcome, events[..|events| - 1]);
    }
  }

  lemma {:induction false} PrefixPossible(hostname: bytes, welcome: bytes, events: seq<Event>, n: nat)
    requires Possible(hostname, welcome, events) && n <= |events|
    ensures Possible(hostname, welcome, events[..n])
    decreases |events|
  {
    hide Run, Enabled;
    if n == |events| {
      assert events[..n] == events;
    } else {
      var init := events[..|events| - 1];
      assert init[..n] == events[..n];
      PrefixPossible(hostname, welcome, init, n);
    }
  }

  // ---------------------------------------------------------------- theorems over all runs

  /** Pipelining safety.  In every run the count of unsent replies is the number of confirmations on
      their way and of those whose sending failed.  So a reply to RCPT that completes finds its
      recipient counted, the count never underflows, and it is exactly the number on their way if
      and only if no confirming send has failed; after a failure the session is stopping. */
  lemma PipeliningSafety(hostname: bytes, welcome: bytes, events: seq<Event>)
    requires Possible(hostname, welcome, events)
    ensures var (s, f) := (Run(hostname, welcome, events).s, FailedConfirms(hostname, welcome, events));
            && s.mail.unsended == Confirms(s.sends) + f
            && (s.mail.unsended == Confirms(s.sends) <==> f == 0)
            && (f > 0 ==> s.stopped)
            && forall i :: 0 <= i < |s.sends| && s.sends[i].confirms ==> s.mail.unsended > 0
  {
    hide BuffersOk, Confirms, Chronicled, Remembers, AllComplete, Possible;
    var s := Run(hostname, welcome, events).s;
    SeenIs(hostname, welcome, events);
    forall i | 0 <= i < |s.sends| && s.sends[i].confirms ensures s.mail.unsended > 0 {
      ConfirmsRemove(s.sends, i);
    }
  }

  /** The command lines.  In every run the lines handled so far and those still queued are the lines
      of all bytes read as commands, in order, and what is unfinished waits in the buffer. */
  lemma LinesHandled(hostname: bytes, welcome: bytes, events: seq<Event>)
    requires Possible(hostname, welcome, events)
    ensures var s := Run(hostname, welcome, events).s;
            && LinesOf(s.log) + s.cmd.view.lines == Delimited.Lines(CRLF, CommandBytes(events))
            && s.cmd.view.unparsed <= |s.cmd.view.filled|
            && Pending(s.cmd.view) == Delimited.Rest(CRLF, CommandBytes(events))
  {
    hide WellParsed, UpToDate, Delimited.Lines, Delimited.Rest, Chronicled, Remembers, AllComplete, Possible,
         HasRecorded;
    SeenIs(hostname, welcome, events);
  }

  /** Who is talking.  In every run the session is greeted exactly when it has accepted a HELO, and it
      knows its client by the last one and the sender by the last MAIL it accepted: neither RSET nor a
      message handed over forgets the greeting or changes it. */
  lemma NamesRemembered(hostname: bytes, welcome: bytes, events: seq<Event>)
    requires Possible(hostname, welcome, events)
    ensures var s := Run(hostname, welcome, events).s; Remembers(hostname, s.log, s.mail)
  {
    hide BuffersOk, Confirms, Chronicled, Possible, InOrder, AcceptedData, AllComplete;
    var s := Run(hostname, welcome, events).s;
  }

  /** Command order, and the accounting of accepted DATA commands. */
  lemma CommandOrder(hostname: bytes, welcome: bytes, events: seq<Event>)
    requires Possible(hostname, welcome, events)
    ensures var s := Run(hostname, welcome, events).s;
            && InOrder(s.mail)
            && (forall i :: 0 <= i < |s.handed| ==> Complete(s.handed[i]))
            && AcceptedData(hostname, s.log) == |s.handed| + (if s.mail.waiting then 1 else 0)
            && (!s.stopped && !s.thrown ==> s.reading == if s.mail.waiting then ReadingData else ReadingCommand)
  {
    hide BuffersOk, Confirms, Chronicled, Possible, Complete, InOrder, AcceptedData;
    var s := Run(hostname, welcome, events).s;
  }

  /** Whose recipients they are.  MAIL does not remove the recipients of an earlier sender: all
      recipients of a transaction came after its sender if and only if that sender was accepted when
      there were none. */
  lemma RecipientsAfterSender(hostname: bytes, welcome: bytes, events: seq<Event>)
    requires Possible(hostname, welcome, events)
    requires Run(hostname, welcome, events).s.mail.mailFrom.inited
    ensures var s := Run(hostname, welcome, events).s;
            var k := SenderAt(hostname, s.log);
            && k >= 0
            && ((forall a :: a in s.mail.rcpts ==> RecipientAt(hostname, s.log, a) > k) <==> s.log[k].m.rcpts == {})
  {
    hide BuffersOk, Confirms, AllComplete, Possible, AcceptedData, SenderAt, RecipientAt, GreetingAt;
    var s := Run(hostname, welcome, events).s;
    var k := SenderAt(hostname, s.log);
    if a :| a in s.log[k].m.rcpts {
      assert RecipientAt(hostname, s.log, a) < k;
    }
  }

  lemma {:induction false} BeginHands(hostname: bytes, s: Session)
    requires Steady(s)
    ensures Begin(hostname, s).handed == s.handed
    decreases |s.cmd.view.lines|
  {
    hide OneLine, ReadCommand, ReadData, Compacted, Cleared;
    if s.cmd.view.lines == [] {
      var s1 := s.(cmd := Compacted(CommandLines, CRLF, s.cmd).buffer);
      RoomOnly(s1);
      RoomOnly(s1.(mail := s.mail.(data := Cleared(MessageData, s.mail.data))));
    } else {
      OneLineShape(hostname, s);
      BeginHands(hostname, OneLine(hostname, s));
    }
  }

  /** A message is handed over only when data was read, and it is the transaction there was, with
      that data. */
  lemma StepHands(hostname: bytes, s: Session, seen: Seen, e: Event)
    requires Steady(s) && Inv(hostname, s, seen) && Enabled(s, e)
    ensures var s' := Step(hostname, s, e);
            || s'.handed == s.handed
            || (&& e.DataRead? && e.ok && |s'.handed| == |s.handed| + 1 && s.handed <= s'.handed
                && var m := s'.handed[|s.handed|];
                && m == s.mail.(data := m.data) && Complete(m)
                && m.data.view.filled == Note(s, seen, e).data)
  {
    match e {
      case CmdRead(ok, chunk) =>
        if ok {
          BeginHands(hostname, s.(reading := NotReading, cmd := TakeIn(CommandLines, CRLF, s.cmd, chunk)));
        }
      case DataRead(ok, chunk) =>
        if ok {
          DataHands(hostname, s, seen, chunk);
        }
      case _ =>
    }
  }

  lemma DataHands(hostname: bytes, s: Session, seen: Seen, chunk: bytes)
    requires Steady(s) && Inv(hostname, s, seen) && Enabled(s, DataRead(true, chunk))
    ensures var s' := Step(hostname, s, DataRead(true, chunk));
            || s'.handed == s.handed
            || (&& |s'.handed| == |s.handed| + 1 && s.handed <= s'.handed
                && var m := s'.handed[|s.handed|];
                && m == s.mail.(data := m.data) && Complete(m)
                && m.data.view.filled == seen.data + chunk)
  {
    DataTaken(hostname, s, seen, chunk);
    var s1 := s.(reading := NotReading,
                 mail := s.mail.(data := TakeIn(MessageData, END_OF_DATA, s.mail.data, chunk)));
    var seen' := seen.(data := seen.data + chunk);
    if s1.mail.data.view.dataEnd == 0 {
      RoomOnly(s1);
    } else {
      DataDoneKeeps(hostname, s1, seen');
    }
    hide Core, Inv, TakeIn, ReadData, DataDone;
  }

  /** The data of a message, as its delivery determines it. */
  ghost predicate Delivered(m: MailState, stream: bytes) {
    && m.data.view.filled == stream
    && (ExtractsMessage(END_OF_DATA, stream, m.data.view) <==> !Delimited.OccursAt(END_OF_DATA, stream, 0))
    && (!Delimited.OccursAt(END_OF_DATA, stream, 0) ==>
          Delimited.Find(END_OF_DATA, stream, 0) == Some(m.data.view.dataEnd))
  }

  lemma CompleteIsDelivered(m: MailState)
    requires Complete(m)
    ensures Delivered(m, m.data.view.filled)
  {
    hide HasRecorded, ExtractsMessage, Delimited.OccursAt, Delimited.Find;
    RecordedExtracts(END_OF_DATA, m.data.view);
  }

  /** End to end.  Every message that was handed over was handed over when the `n`-th event read some
      data.  It is the transaction the session then had, and its data is what the client sent since
      its last command, up to the first end-of-data delimiter, however it was chunked, unless it sent
      that delimiter at once. */
  lemma {:induction false} HandedMessages(hostname: bytes, welcome: bytes, events: seq<Event>, i: nat)
    returns (n: nat)
    requires Possible(hostname, welcome, events) && i < |Run(hostname, welcome, events).s.handed|
    ensures n < |events| && events[n].DataRead? && events[n].ok && Possible(hostname, welcome, events[..n])
    ensures var (before, m) := (Run(hostname, welcome, events[..n]).s, Run(hostname, welcome, events).s.handed[i]);
            && |before.handed| == i && m == before.mail.(data := m.data)
            && Delivered(m, MessageBytes(events[..n + 1]))
    decreases |events|
  {
    hide Step, Inv, Enabled, Delivered, Complete, Possible, Run, Note;
    EventHands(hostname, welcome, events);
    var init := events[..|events| - 1];
    if i < |Run(hostname, welcome, init).s.handed| {
      n := HandedMessages(hostname, welcome, init, i);
      assert init[..n] == events[..n] && init[..n + 1] == events[..n + 1];
    } else {
      n := |events| - 1;
      assert events[..n + 1] == events;
    }
  }

  /** The last event of a run hands over at most one message. */
  lemma EventHands(hostname: bytes, welcome: bytes, events: seq<Event>)
    requires Possible(hostname, welcome, events) && Run(hostname, welcome, events).s.handed != []
    ensures events != [] && Possible(hostname, welcome, events[..|events| - 1])
    ensures var (s, s') := (Run(hostname, welcome, events[..|events| - 1]).s, Run(hostname, welcome, events).s);
            var e := events[|events| - 1];
            || s'.handed == s.handed
            || (&& e.DataRead? && e.ok && |s'.handed| == |s.handed| + 1 && s.handed <= s'.handed
                && var m := s'.handed[|s.handed|];
                   m == s.mail.(data := m.data) && Delivered(m, MessageBytes(events)))
  {
    hide Step, Inv, Enabled, Delivered, Complete, Note, FailedConfirms;
    if events == [] {
      StartHands(welcome);
    } else {
      var r := Run(hostname, welcome, events[..|events| - 1]);
      StepHands(hostname, r.s, r.seen, events[|events| - 1]);
      SeenIs(hostname, welcome, events);
      var s' := Run(hostname, welcome, events).s;
      if s'.handed != r.s.handed {
        CompleteIsDelivered(s'.handed[|r.s.handed|]);
      }
    }
  }

  lemma StartHands(welcome: bytes)
    ensures Start(welcome).handed == []
  {
    hide Greeting, Room;
  }

  /** Once given, the greeting is kept through resets, messages and everything else. */
  lemma {:induction false} GreetingIsKept(hostname: bytes, welcome: bytes, events: seq<Event>, n: nat)
    requires n <= |events| && Possible(hostname, welcome, events) && Possible(hostname, welcome, events[..n])
    requires Run(hostname, welcome, events[..n]).s.mail.heloInited
    ensures Run(hostname, welcome, events).s.mail.heloInited
    decreases |events|
  {
    hide Step, Inv, Enabled;
    if n < |events| {
      var init, e := events[..|events| - 1], events[|events| - 1];
      assert init[..n] == events[..n];
      GreetingIsKept(hostname, welcome, init, n);
      var r := Run(hostname, welcome, init);
      StepKeeps(hostname, r.s, r.seen, e);
    } else {
      assert events[..n] == events;
    }
  }

  // ---------------------------------------------------------------- one reply per line

  /** What answers a line in a given state. */
  function Answer(hostname: bytes, m: MailState, line: bytes): bytes {
    if m.waiting then EXCESS else ReplyText(HandleLine(hostname, m, line))
  }

  lemma OneAnswer(hostname: bytes, s: Session)
    requires Steady(s) && s.cmd.view.lines != []
    ensures var s1 := OneLine(hostname, s);
            && |s1.sends| == |s.sends| + 1
            && s1.sends[|s.sends|].text == Answer(hostname, s.mail, s.cmd.view.lines[0])
            && IsReply(s1.sends[|s.sends|].text, Accepts(hostname, Entry(s.cmd.view.lines[0], s.mail)))
  {
    hide HandleLine, ReplyText, IsReply;
    FixedReplies([]);
    if !s.mail.waiting {
      RepliesAreReplies(hostname, s.mail, s.cmd.view.lines[0]);
    }
  }

  predicate Accepts(hostname: bytes, e: Entry) {
    !e.m.waiting && HandleLine(hostname, e.m, e.line).err == NoError
  }

  lemma FixedReplies(welcome: bytes)
    ensures IsReply(EXCESS, false) && IsReply(ACCEPTED, true) && IsReply(Greeting(welcome), true)
  {
    hide IsReply, Reply, Ascii;
    CodeMakesReply("500 ", Ascii("Excess command after DATA in the same transaction."), false);
    CodeMakesReply("250 ", Ascii("OK. 1460191710 b128si9046197lfb."), true);
    CodeMakesReply("220 ", welcome, true);
  }

  /** Each line in a log was handled in the state the line before it left. */
  ghost predicate Chained(hostname: bytes, log: seq<Entry>, last: MailState) {
    forall k :: 0 <= k < |log| ==> After(hostname, log[k].m, log[k].line) == FoundNext(log, k + 1, last)
  }

  /** The state the `k`-th line finds, or the one after the last line. */
  function FoundNext(log: seq<Entry>, k: nat, last: MailState): MailState {
    if k < |log| then log[k].m else last
  }

  lemma ChainedSnoc(hostname: bytes, e: Entry, more: seq<Entry>, last: MailState)
    requires Chained(hostname, more, last)
    requires After(hostname, e.m, e.line) == FoundNext(more, 0, last)
    ensures Chained(hostname, [e] + more, last)
  {
    hide After;
    var all := [e] + more;
    forall k | 0 <= k < |all| ensures After(hostname, all[k].m, all[k].line) == FoundNext(all, k + 1, last) {
      if k == 0 {
        assert all[0] == e;
      } else {
        assert all[k] == more[k - 1];
        assert After(hostname, more[k - 1].m, more[k - 1].line) == FoundNext(more, k - 1 + 1, last);
      }
    }
  }

  /** The lines a transaction step takes and the replies it issues: they match one by one. */
  ghost predicate Answered(hostname: bytes, log: seq<Entry>, sends: seq<Send>) {
    && |sends| == |log|
    && forall k :: 0 <= k < |log| ==>
         sends[k].text == Answer(hostname, log[k].m, log[k].line) && IsReply(sends[k].text, Accepts(hostname, log[k]))
  }

  lemma AnsweredOneMore(hostname: bytes, e: Entry, more: seq<Entry>, reply: Send, rest: seq<Send>)
    requires Answered(hostname, more, rest)
    requires reply.text == Answer(hostname, e.m, e.line) && IsReply(reply.text, Accepts(hostname, e))
    ensures Answered(hostname, [e] + more, [reply] + rest)
  {
    hide Answer, Accepts, IsReply;
  }

  /** Handling what is queued issues exactly one reply line for each line it takes, in order, positive
      exactly when the line was accepted, each made in the state the earlier lines left; only a closed
      connection leaves lines over. */
  lemma {:induction false} OneReplyPerLine(hostname: bytes, s: Session)
    returns (taken: seq<Entry>, replies: seq<Send>, last: MailState)
    requires Steady(s)
    ensures var s' := Begin(hostname, s);
            && s'.log == s.log + taken && s'.sends == s.sends + replies
            && LinesOf(taken) <= s.cmd.view.lines
            && (LinesOf(taken) != s.cmd.view.lines ==> s'.stopped)
    ensures Answered(hostname, taken, replies)
    ensures Chained(hostname, taken, last) && FoundNext(taken, 0, last) == s.mail
    ensures last == Begin(hostname, s).mail.(data := last.data)
    decreases |s.cmd.view.lines|
  {
    hide OneLine, After, Answer, Accepts, IsReply, StartReading, Answered, Chained, LinesOf;
    if s.cmd.view.lines == [] {
      taken, replies, last := [], [], s.mail;
      StartReadingShape(s);
      NoneTaken(hostname, s.cmd.view.lines, last);
      assert s.log + taken == s.log && s.sends + replies == s.sends;
    } else {
      var s1 := OneLine(hostname, s);
      OneLineShape(hostname, s);
      OneAnswer(hostname, s);
      var e, reply := Entry(s.cmd.view.lines[0], s.mail), s1.sends[|s.sends|];
      var more, rest;
      if !s.mail.waiting && s1.mail.closeConn {
        more, rest, last := [], [], s1.mail;
        NoneTaken(hostname, s1.cmd.view.lines, last);
        assert s.log + [e] + more == s.log + [e] && s.sends + [reply] + rest == s.sends + [reply];
      } else {
        more, rest, last := OneReplyPerLine(hostname, s1);
      }
      taken, replies := [e] + more, [reply] + rest;
      assert s1.sends == s.sends + [reply];
      assert s.log + [e] + more == s.log + taken && s.sends + [reply] + rest == s.sends + replies;
      TakenOneMore(e, more, s.cmd.view.lines);
      AnsweredOneMore(hostname, e, more, reply, rest);
      ChainedSnoc(hostname, e, more, last);
    }
  }

  lemma NoneTaken(hostname: bytes, lines: seq<bytes>, last: MailState)
    ensures LinesOf([]) == [] <= lines && Answered(hostname, [], []) && Chained(hostname, [], last)
  {
    hide Answer, Accepts, IsReply, After;
  }

  lemma StartReadingShape(s: Session)
    requires Steady(s)
    ensures var s' := StartReading(s);
            s'.log == s.log && s'.sends == s.sends && s'.mail == s.mail.(data := s'.mail.data)
  {
    hide Compacted, Cleared, Room;
  }

  lemma TakenOneMore(e: Entry, more: seq<Entry>, lines: seq<bytes>)
    requires lines != [] && lines[0] == e.line && LinesOf(more) <= lines[1..]
    ensures LinesOf([e] + more) <= lines
    ensures LinesOf([e] + more) == lines <==> LinesOf(more) == lines[1..]
  {
    assert LinesOf([e] + more) == [e.line] + LinesOf(more);
    assert lines == [lines[0]] + lines[1..];
    if LinesOf([e] + more) == lines {
      assert LinesOf(more) == LinesOf([e] + more)[1..];
    }
  }

  // ---------------------------------------------------------------- the object

  /** `AEvSmtpSession`, with the two parsing buffers it reads into.  A method that completes a read
      or a send makes the one step of the model that its event stands for. */
  class AEvSmtpSession {
    const hostname: bytes
    var state: IncSmtpState
    const cmdBuffer: ParsingBuffer
    var sends: seq<Send>
    var reading: Reading
    var stopInited: bool
    var thrown: bool
    ghost var handed: seq<MailState>
    ghost var log: seq<Entry>

    ghost predicate Valid()
      reads this, cmdBuffer, cmdBuffer.cdata, state, state.messageData, state.messageData.cdata
    {
      && state.Valid() && cmdBuffer.Valid() && cmdBuffer.hook == CommandLines && cmdBuffer.delimiter == CRLF
      && cmdBuffer != state.messageData && cmdBuffer.cdata != state.messageData.cdata
    }

    ghost function Owned(): set<object>
      reads this, cmdBuffer, state, state.messageData
    {
      {this, cmdBuffer, cmdBuffer.cdata, state, state.messageData, state.messageData.cdata}
    }

    ghost function Model(): (s: Session)
      reads this, cmdBuffer, cmdBuffer.cdata, state, state.messageData, state.messageData.cdata
      requires Valid()
      ensures Steady(s)
    {
      Session.Session(state.Value(), cmdBuffer.Value(), sends, reading, stopInited, thrown, handed, log)
    }

    /** `_ev_begin`: greet and read. */
    constructor (hostname: bytes, welcome: bytes)
      ensures Valid() && fresh(Owned()) && this.hostname == hostname
      ensures Model() == Start(welcome)
    {
      hide IncSmtpState.Valid, IncSmtpState.Value, ReadCommand, Capacity.Initial, Sound, ParsingBuffer.Valid,
           ParsingBuffer.Value, ParsingBuffer.Contents;
      this.hostname := hostname;
      state := new IncSmtpState();
      cmdBuffer := new ParsingBuffer(CRLF, CommandLines);
      reading, stopInited, thrown := NotReading, false, false;
      sends := [Send(Greeting(welcome), false)];
      handed, log := [], [];
      new;
      AsyncReadCommand();
    }

    /** `_read_command`; the exception of `release` leaves the handler. */
    method AsyncReadCommand()
      requires Valid()
      modifies this`thrown, this`reading, cmdBuffer
      ensures Valid()
      ensures state == old(state) || fresh(state)
      ensures cmdBuffer.cdata == old(cmdBuffer.cdata) || fresh(cmdBuffer.cdata)
      ensures state.messageData == old(state.messageData) || fresh(state.messageData)
      ensures state.messageData.cdata == old(state.messageData.cdata) || fresh(state.messageData.cdata)
      ensures Model() == ReadCommand(old(Model()))
    {
      var ok := cmdBuffer.Release(COMMAND_ROOM);
      if !ok {
        thrown := true;
        return;
      }
      reading := ReadingCommand;
    }

    /** `_read_data`. */
    method AsyncReadData()
      requires Valid()
      modifies this`thrown, this`reading, state.messageData
      ensures Valid()
      ensures state == old(state) || fresh(state)
      ensures cmdBuffer.cdata == old(cmdBuffer.cdata) || fresh(cmdBuffer.cdata)
      ensures state.messageData == old(state.messageData) || fresh(state.messageData)
      ensures state.messageData.cdata == old(state.messageData.cdata) || fresh(state.messageData.cdata)
      ensures Model() == ReadData(old(Model()))
    {
      var ok := state.messageData.Release(DATA_ROOM);
      if !ok {
        thrown := true;
        return;
      }
      reading := ReadingData;
    }

    method SendRespond(text: bytes, confirms: bool)
      modifies this`sends
      ensures sends == old(sends) + [Send(text, confirms)]
    {
      sends := sends + [Send(text, confirms)];
    }

    /** The part of `_begin_transaction` between two tests of the queue. */
    method HandleOneLine() returns (goOn: bool)
      requires Valid() && cmdBuffer.lines != []
      modifies this, cmdBuffer`lines, state
      ensures Valid()
      ensures state == old(state) && cmdBuffer.cdata == old(cmdBuffer.cdata)
      ensures state.messageData == old(state.messageData) || fresh(state.messageData)
      ensures state.messageData.cdata == old(state.messageData.cdata) || fresh(state.messageData.cdata)
      ensures Model() == OneLine(hostname, old(Model()))
      ensures goOn == !(!old(state.waitingForData) && state.closeConn)
    {
      hide Commanded, Sound, ParsingBuffer.Value, ParsingBuffer.Valid, ParsingBuffer.Sizes, IncSmtpState.Value,
           IncSmtpState.Valid;
      ghost var found := state.Value();
      var line := cmdBuffer.GetLine();
      log := log + [Entry(line, found)];
      if state.waitingForData {
        SendRespond(EXCESS, false);
        return true;
      }
      goOn := RunCommand(line);
    }

    method RunCommand(line: bytes) returns (goOn: bool)
      requires Valid()
      modifies this, state
      ensures Valid()
      ensures state == old(state) && cmdBuffer.cdata == old(cmdBuffer.cdata)
      ensures state.messageData == old(state.messageData) || fresh(state.messageData)
      ensures state.messageData.cdata == old(state.messageData.cdata) || fresh(state.messageData.cdata)
      ensures Model() == Commanded(hostname, old(Model()), line)
      ensures goOn == !state.closeConn
    {
      hide HandleLine, ErrText, Obliges, Sound, ParsingBuffer.Value, ParsingBuffer.Valid, ParsingBuffer.Sizes,
           IncSmtpState.Value, IncSmtpState.Valid;
      var rerr, confirms := state.CallMappedHandler(hostname, line);
      if rerr == NoError {
        var reply := state.TakeReply();
        SendRespond(reply, confirms);
      } else {
        SendRespond(ErrText(rerr), false);
      }
      goOn := !state.closeConn;
      if !goOn {
        stopInited := true;
      }
    }

    /** `_begin_transaction`. */
    method BeginTransaction()
      requires Valid()
      modifies Owned()
      ensures Valid()
      ensures state == old(state) || fresh(state)
      ensures cmdBuffer.cdata == old(cmdBuffer.cdata) || fresh(cmdBuffer.cdata)
      ensures state.messageData == old(state.messageData) || fresh(state.messageData)
      ensures state.messageData.cdata == old(state.messageData.cdata) || fresh(state.messageData.cdata)
      ensures Model() == Begin(hostname, old(Model()))
      decreases |cmdBuffer.lines|
    {
      hide OneLine, StartReading, ParsingBuffer.Valid, ParsingBuffer.Value, ParsingBuffer.Contents;
      if cmdBuffer.IsEmpty() {
        ReadNext();
        return;
      }
      OneLineShape(hostname, Model());
      var goOn := HandleOneLine();
      if goOn {
        BeginTransaction();
      }
    }

    /** Its end: compact, then read what the session waits for. */
    method ReadNext()
      requires Valid()
      modifies Owned()
      ensures Valid()
      ensures state == old(state) || fresh(state)
      ensures cmdBuffer.cdata == old(cmdBuffer.cdata) || fresh(cmdBuffer.cdata)
      ensures state.messageData == old(state.messageData) || fresh(state.messageData)
      ensures state.messageData.cdata == old(state.messageData.cdata) || fresh(state.messageData.cdata)
      ensures Model() == StartReading(old(Model()))
    {
      hide Compacted, Cleared, Sound, ReadCommand, ReadData, ParsingBuffer.Valid, ParsingBuffer.Value,
           ParsingBuffer.Contents;
      var ok := cmdBuffer.MemReduce();
      if !ok {
        thrown := true;
        return;
      }
      if !state.waitingForData {
        AsyncReadCommand();
      } else {
        state.messageData.Clear();
        AsyncReadData();
      }
    }

    /** The completion of a read of commands. */
    method OnCommandRead(ok: bool, chunk: bytes)
      requires Valid() && Enabled(Model(), CmdRead(ok, chunk))
      modifies Owned()
      ensures Valid()
      ensures state == old(state) || fresh(state)
      ensures cmdBuffer.cdata == old(cmdBuffer.cdata) || fresh(cmdBuffer.cdata)
      ensures state.messageData == old(state.messageData) || fresh(state.messageData)
      ensures state.messageData.cdata == old(state.messageData.cdata) || fresh(state.messageData.cdata)
      ensures Model() == Step(hostname, old(Model()), CmdRead(ok, chunk))
    {
      hide TakeIn, Begin, ParsingBuffer.Valid, ParsingBuffer.Value, ParsingBuffer.Contents;
      reading := NotReading;
      if !ok {
        stopInited := true;
        return;
      }
      cmdBuffer.Receive(chunk);
      BeginTransaction();
    }

    /** The state object is replaced. */
    method HandOver()
      requires Valid()
      modifies this
      ensures Valid() && fresh(state) && fresh(state.messageData) && fresh(state.messageData.cdata)
      ensures Model() == HandedOver(old(Model()))
    {
      hide ParsingBuffer.Valid, ParsingBuffer.Value, ParsingBuffer.Contents, Sound, Capacity.Initial,
           IncSmtpState.Valid, IncSmtpState.Value, ResetMail, InOrder;
      ghost var s := Model();
      SendRespond(ACCEPTED, false);
      var stateForHandling := state;
      handed := handed + [s.mail];
      state := new IncSmtpState();
      state.AdoptGreeting(stateForHandling);
      state.ResetTransaction();
      reading := NotReading;
    }

    /** `_data_acceepted`. */
    method DataAccepted()
      requires Valid()
      modifies this, cmdBuffer
      ensures Valid() && fresh(state) && fresh(state.messageData) && fresh(state.messageData.cdata)
      ensures cmdBuffer.cdata == old(cmdBuffer.cdata) || fresh(cmdBuffer.cdata)
      ensures Model() == DataDone(old(Model()))
    {
      hide ReadCommand, HandedOver, ParsingBuffer.Valid, ParsingBuffer.Value, ParsingBuffer.Contents;
      HandOver();
      if !stopInited {
        AsyncReadCommand();
      }
    }

    /** The completion of a read of message data. */
    method OnDataRead(ok: bool, chunk: bytes)
      requires Valid() && Enabled(Model(), DataRead(ok, chunk))
      modifies Owned()
      ensures Valid()
      ensures state == old(state) || fresh(state)
      ensures cmdBuffer.cdata == old(cmdBuffer.cdata) || fresh(cmdBuffer.cdata)
      ensures state.messageData == old(state.messageData) || fresh(state.messageData)
      ensures state.messageData.cdata == old(state.messageData.cdata) || fresh(state.messageData.cdata)
      ensures Model() == Step(hostname, old(Model()), DataRead(ok, chunk))
    {
      hide TakeIn, ReadData, DataDone, ParsingBuffer.Valid, ParsingBuffer.Value, ParsingBuffer.Contents;
      reading := NotReading;
      if !ok {
        stopInited := true;
        return;
      }
      state.messageData.Receive(chunk);
      if !state.messageData.IsReady() {
        AsyncReadData();
      } else {
        DataAccepted();
      }
    }

    /** The completion of the `i`-th of the sends under way; a failed one stops the session and
        confirms nothing. */
    method OnSent(i: nat, ok: bool)
      requires Valid() && Enabled(Model(), Sent(i, ok))
      modifies this`sends, this`stopInited, state`unsendedResponds
      ensures Valid() && Model() == Step(hostname, old(Model()), Sent(i, ok))
    {
      hide Sound, ParsingBuffer.Valid, ParsingBuffer.Value, ParsingBuffer.Contents;
      var confirms := sends[i].confirms;
      sends := sends[..i] + sends[i + 1..];
      if !ok {
        stopInited := true;
        return;
      }
      if confirms {
        state.unsendedResponds := state.unsendedResponds - 1;
      }
    }

    /** The timer's, and anyone's, stop. */
    method OnTimeout()
      requires Valid() && Enabled(Model(), Timeout)
      modifies this`stopInited
      ensures Valid() && Model() == Step(hostname, old(Model()), Timeout)
    {
      stopInited := true;
    }
  }
}
