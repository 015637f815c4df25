/** Concrete runs of the SMTP session that show where two expectations fail: that the count of unsent
    replies is the number under way, and that a new sender begins a new transaction. */
module SmtpExamples {
  import opened Bytes
  import Delimited
  import BufferView
  import PBuffer
  import opened SmtpBuffers
  import opened SmtpSession
  import opened SmtpState
  import opened SmtpText
  import opened Tokens
  import Capacity

  // ---------------------------------------------------------------- one line at a time

  /** An open session with nothing queued and nothing unfinished, reading commands. */
  ghost predicate Idle(s: Session) {
    && s.reading == ReadingCommand && !s.stopped && !s.thrown && !s.mail.waiting && !s.mail.closeConn
    && s.cmd.view.lines == [] && s.cmd.view.unparsed == |s.cmd.view.filled|
  }

  lemma OneLineOfText(l: bytes)
    requires 13 !in l
    ensures Delimited.Lines(CRLF, l + CRLF) == [l] && Delimited.Rest(CRLF, l + CRLF) == []
  {
    hide Delimited.Lines, Delimited.Rest, Delimited.Find;
    var s := l + CRLF;
    Delimited.FindBehind(CRLF, l);
    Delimited.LinesStep(CRLF, s, |l|);
    assert s[..|l|] == l && s[|l| + 2..] == [];
    NothingInNothing(CRLF);
  }

  lemma LineTakenIn(b: PBuffer.Buffer, delivered: seq<bytes>, stream: bytes, l: bytes)
    requires PBuffer.Sound(b) && Tracks(CRLF, CmdState(b.view, delivered), stream)
    requires b.view.lines == [] && BufferView.Pending(b.view) == [] && 13 !in l && |l| + 2 <= Capacity.Avail(b.mem)
    ensures var v := PBuffer.TakeIn(BufferView.CommandLines, CRLF, b, l + CRLF).view;
            v.lines == [l] && v.unparsed == |v.filled|
  {
    hide BufferView.WellParsed, BufferView.UpToDate, Delimited.Lines, Delimited.Rest, BufferView.Accepted;
    GrownIsSplit(CRLF, b.view, l + CRLF);
    assert [] + (l + CRLF) == l + CRLF;
    OneLineOfText(l);
  }

  lemma NothingPending(s: Session)
    requires Steady(s) && s.cmd.view.lines == [] && s.cmd.view.unparsed == |s.cmd.view.filled| && !s.mail.waiting
    ensures var s' := StartReading(s);
            && s'.reading == ReadingCommand && s'.thrown == s.thrown && s'.stopped == s.stopped
            && s'.mail == s.mail && s'.sends == s.sends && s'.log == s.log
            && s'.cmd.view.lines == [] && s'.cmd.view.unparsed == |s'.cmd.view.filled|
  {
    hide Capacity.CalcMem;
    assert BufferView.Pending(s.cmd.view) == [];
  }

  /** A line arrives in a chunk of its own: it is handled at once, and the session is idle again. */
  lemma LineRead(hostname: bytes, s: Session, seen: Seen, l: bytes)
    requires Steady(s) && Inv(hostname, s, seen) && Idle(s) && 13 !in l && |l| + 2 <= COMMAND_ROOM
    requires var m := After(hostname, s.mail, l); !m.waiting && !m.closeConn
    ensures Enabled(s, CmdRead(true, l + CRLF))
    ensures var (s', r) := (Step(hostname, s, CmdRead(true, l + CRLF)), HandleLine(hostname, s.mail, l));
            && Idle(s') && s'.mail == After(hostname, s.mail, l) && s'.log == s.log + [Entry(l, s.mail)]
            && |s'.sends| == |s.sends| + 1 && s'.sends[..|s.sends|] == s.sends
            && s'.sends[|s.sends|].confirms == (r.err == NoError && r.confirms)
  {
    hide HandleLine, ReplyText, Tracks, HasRecorded, Chronicled, PBuffer.TakeIn, StartReading;
    assert BufferView.Pending(s.cmd.view) == [];
    LineTakenIn(s.cmd, LinesOf(s.log), seen.commands, l);
    var s0 := s.(reading := NotReading, cmd := PBuffer.TakeIn(BufferView.CommandLines, CRLF, s.cmd, l + CRLF));
    assert s0.cmd.view.lines[1..] == [];
    NothingPending(OneLine(hostname, s0));
    assert Begin(hostname, s0) == StartReading(OneLine(hostname, s0));
  }

  // ---------------------------------------------------------------- the lines

  const HELO_LINE: bytes := Ascii("HELO a")
  const MAIL_WORDS: bytes := Ascii("Mail From")
  const RCPT_WORDS: bytes := Ascii("rcpt TO")
  const ADDRESS: bytes := Ascii("a@b.c")
  const MAIL_LINE: bytes := MAIL_WORDS + [COLON] + (LEFT + ADDRESS + RIGHT)
  const RCPT_LINE: bytes := RCPT_WORDS + [COLON] + (LEFT + ADDRESS + RIGHT)
  const DATA_LINE: bytes := Ascii("DATA")

  const EMAIL: EmailAddr := EmailAddr(ADDRESS, Ascii("a"), Ascii("b.c"), true)

  lemma Spelled()
    ensures HELO_LINE == [72, 69, 76, 79, 32, 97] && DATA_LINE == [68, 65, 84, 65]
    ensures MAIL_WORDS == [77, 97, 105, 108, 32, 70, 114, 111, 109]
    ensures RCPT_WORDS == [114, 99, 112, 116, 32, 84, 79]
    ensures ADDRESS == [97, 64, 98, 46, 99]
    ensures Ascii("mail from") == [109, 97, 105, 108, 32, 102, 114, 111, 109]
    ensures Ascii("rcpt to") == [114, 99, 112, 116, 32, 116, 111]
    ensures Ascii("a") == [97] && Ascii("b.c") == [98, 46, 99] && Ascii("@d") == [64, 100]
  {
  }

  lemma Calls(line: bytes, word: bytes, i: nat)
    requires BeginsWith(line, word) && i < |COMMANDS| && SameWord(word, COMMANDS[i].0)
    ensures HandlerOf(line) == Some(COMMANDS[i].1)
  {
    hide HandlerOf, COMMANDS, SameWord;
    CommandTable(line, word);
  }

  lemma HeloCommand()
    ensures HandlerOf(HELO_LINE) == Some(Helo)
  {
    hide HandlerOf, Ascii;
    Spelled();
    CommandsSpelled();
    Calls(HELO_LINE, [72, 69, 76, 79], 0);
  }

  lemma MailCommand()
    ensures HandlerOf(MAIL_LINE) == Some(Mail)
  {
    hide HandlerOf, Ascii;
    Spelled();
    CommandsSpelled();
    Calls(MAIL_LINE, [77, 97, 105, 108], 2);
  }

  lemma RcptCommand()
    ensures HandlerOf(RCPT_LINE) == Some(Rcpt)
  {
    hide HandlerOf, Ascii;
    Spelled();
    CommandsSpelled();
    Calls(RCPT_LINE, [114, 99, 112, 116], 3);
  }

  lemma DataCommand()
    ensures HandlerOf(DATA_LINE) == Some(Data)
  {
    hide HandlerOf, Ascii;
    Spelled();
    CommandsSpelled();
    Calls(DATA_LINE, [68, 65, 84, 65], 4);
  }

  lemma GreetingParses()
    ensures ParseHelo(HELO_LINE) == Good([97])
  {
    hide ParseHelo, Ascii;
    Spelled();
    HeloReads([72, 69, 76, 79], [97], []);
    assert HELO_LINE == [72, 69, 76, 79] + [SPACE] + [97];
  }

  lemma AddressParses()
    ensures EmailOf(ADDRESS) == Some(EMAIL)
  {
    hide Ascii, EmailOf, Split, Words;
    Spelled();
    var a, b: bytes := [97], [98, 46, 99];
    assert ADDRESS == a + [AT] + b;
    TwoWords([98], [99], 46);
    assert b == [98] + [46] + [99];
    AddressReads(a, b);
  }

  /** `a@b.c@d` is accepted as the address of `a` at `b.c`. */
  lemma SecondAtIsAccepted()
    ensures var text := ADDRESS + Ascii("@d");
            EmailOf(text) == Some(EmailAddr(text, Ascii("a"), Ascii("b.c"), true)) && !OneAt(text)
  {
    hide Ascii, EmailOf, Split, Words, OneAt;
    Spelled();
    var a, b, d: bytes := [97], [98, 46, 99], [100];
    assert ADDRESS + Ascii("@d") == a + [AT] + b + [AT] + d;
    TwoWords([98], [99], 46);
    assert b == [98] + [46] + [99];
    SecondAtIsKept(a, b, d);
    AddressIsItsParts(ADDRESS + Ascii("@d"));
  }

  lemma LinesParse()
    ensures ParseMailFrom(MAIL_LINE) == Good(EMAIL) && ParseRcptTo(RCPT_LINE) == Good(EMAIL)
  {
    hide Ascii, EmailOf, ParseMailFrom, ParseRcptTo, Collapse;
    Spelled();
    AddressParses();
    CollapseFixes(MAIL_WORDS, SPACE);
    CollapseFixes(RCPT_WORDS, SPACE);
    MailFromReads(MAIL_WORDS, ADDRESS);
    assert [] + ADDRESS == ADDRESS;
    RcptToReads(RCPT_WORDS, [], ADDRESS);
  }

  lemma DataParses()
    ensures IsDataLine(DATA_LINE)
  {
    hide Ascii;
    Spelled();
    assert DATA_LINE[..0] == [] && DATA_LINE[4..] == [] && DATA_LINE[0..4] == DATA_LINE;
    assert SameWord(DATA_LINE[0..4], [100, 97, 116, 97]);
  }

  // ---------------------------------------------------------------- the runs

  function LineEvent(line: bytes): Event {
    CmdRead(true, line + CRLF)
  }

  const ONE_RECIPIENT: seq<Event> := [LineEvent(HELO_LINE), LineEvent(MAIL_LINE), LineEvent(RCPT_LINE)]

  /** A greeted session. */
  function Greeted(): MailState {
    NEW_MAIL.(heloInited := true, heloText := [97])
  }

  lemma GreetingHandled(hostname: bytes)
    ensures After(hostname, NEW_MAIL, HELO_LINE) == Greeted()
    ensures !HandleLine(hostname, NEW_MAIL, HELO_LINE).confirms
  {
    hide HandlerOf, ParseHelo, HeloReply;
    HeloCommand();
    GreetingParses();
  }

  lemma SenderHandled(hostname: bytes, m: MailState)
    requires m.heloInited && !m.waiting
    ensures After(hostname, m, MAIL_LINE) == m.(mailFrom := EMAIL, reply := [])
    ensures !HandleLine(hostname, m, MAIL_LINE).confirms && Takes(hostname, Entry(MAIL_LINE, m), Mail)
  {
    hide HandlerOf, ParseMailFrom, MailReply;
    MailCommand();
    LinesParse();
  }

  lemma RecipientHandled(hostname: bytes, m: MailState)
    requires m.mailFrom.inited && !m.waiting && m.rcpts == {}
    ensures After(hostname, m, RCPT_LINE) == m.(rcpts := {EMAIL}, unsended := m.unsended + 1, reply := [])
    ensures var r := HandleLine(hostname, m, RCPT_LINE); r.confirms && r.err == NoError
    ensures TakesRecipient(hostname, Entry(RCPT_LINE, m), EMAIL)
  {
    hide HandlerOf, ParseRcptTo, RcptReply;
    RcptCommand();
    LinesParse();
    assert {} + {EMAIL} == {EMAIL};
  }

  lemma Printable(line: bytes)
    requires line in {HELO_LINE, MAIL_LINE, RCPT_LINE}
    ensures 13 !in line && |line| + 2 <= COMMAND_ROOM
  {
    hide Ascii;
    Spelled();
  }

  /** The session after these events. */
  ghost predicate Reaches(hostname: bytes, welcome: bytes, events: seq<Event>, s: Session) {
    Possible(hostname, welcome, events) && Run(hostname, welcome, events).s == s
  }

  /** The next line of an idle session. */
  lemma NextLine(hostname: bytes, welcome: bytes, events: seq<Event>, s: Session, line: bytes) returns (s': Session)
    requires Reaches(hostname, welcome, events, s) && Idle(s)
    requires line in {HELO_LINE, MAIL_LINE, RCPT_LINE}
    requires var m := After(hostname, s.mail, line); !m.waiting && !m.closeConn
    ensures Reaches(hostname, welcome, events + [LineEvent(line)], s')
    ensures Idle(s') && s'.mail == After(hostname, s.mail, line) && s'.log == s.log + [Entry(line, s.mail)]
    ensures |s'.sends| == |s.sends| + 1 && s'.sends[..|s.sends|] == s.sends
    ensures var r := HandleLine(hostname, s.mail, line);
            s'.sends[|s.sends|].confirms == (r.err == NoError && r.confirms)
  {
    hide HandleLine, Inv, After, Idle, Step, Enabled, Ascii;
    assert (events + [LineEvent(line)])[..|events|] == events;
    Printable(line);
    LineRead(hostname, s, Run(hostname, welcome, events).seen, line);
    s' := Step(hostname, s, LineEvent(line));
  }

  /** The log of a session that took one sender and one recipient. */
  function OneRecipientLog(): seq<Entry> {
    [Entry(HELO_LINE, NEW_MAIL), Entry(MAIL_LINE, Greeted()), Entry(RCPT_LINE, Greeted().(mailFrom := EMAIL))]
  }

  lemma StartIsIdle(hostname: bytes, welcome: bytes)
    ensures var s := Start(welcome);
            && Reaches(hostname, welcome, [], s) && Idle(s)
            && s.mail == NEW_MAIL && s.log == [] && |s.sends| == 1 && !s.sends[0].confirms
  {
    hide Greeting, Capacity.CalcMem, Inv, Step, Enabled;
  }

  lemma NotClosing()
    ensures !Greeted().waiting && !Greeted().closeConn && Greeted().heloInited
  {
  }

  lemma OneGreeting(hostname: bytes, welcome: bytes) returns (s: Session)
    ensures Reaches(hostname, welcome, ONE_RECIPIENT[..1], s) && Idle(s)
    ensures s.log == [Entry(HELO_LINE, NEW_MAIL)] && s.mail == Greeted()
    ensures |s.sends| == 2 && !s.sends[0].confirms && !s.sends[1].confirms
  {
    hide HandleLine, After, Idle, Reaches, LineEvent, Greeted, Start;
    StartIsIdle(hostname, welcome);
    GreetingHandled(hostname);
    NotClosing();
    s := NextLine(hostname, welcome, [], Start(welcome), HELO_LINE);
    assert [] + [LineEvent(HELO_LINE)] == ONE_RECIPIENT[..1];
  }

  lemma OneSender(hostname: bytes, welcome: bytes) returns (s: Session)
    ensures Reaches(hostname, welcome, ONE_RECIPIENT[..2], s) && Idle(s)
    ensures s.log == OneRecipientLog()[..2] && s.mail == Greeted().(mailFrom := EMAIL)
    ensures |s.sends| == 3 && forall i :: 0 <= i < 3 ==> !s.sends[i].confirms
  {
    hide HandleLine, After, Idle, Reaches, Takes, LineEvent;
    s := OneGreeting(hostname, welcome);
    SenderHandled(hostname, Greeted());
    s := NextLine(hostname, welcome, ONE_RECIPIENT[..1], s, MAIL_LINE);
    assert ONE_RECIPIENT[..1] + [LineEvent(MAIL_LINE)] == ONE_RECIPIENT[..2];
  }

  lemma OneRecipient(hostname: bytes, welcome: bytes) returns (s: Session)
    ensures Reaches(hostname, welcome, ONE_RECIPIENT, s) && Idle(s) && s.log == OneRecipientLog()
    ensures s.mail == Greeted().(mailFrom := EMAIL, rcpts := {EMAIL}, unsended := 1)
    ensures |s.sends| == 4 && s.sends[3].confirms && Confirms(s.sends) == 1
  {
    hide HandleLine, After, Idle, Reaches, TakesRecipient, LineEvent, Confirms;
    s := OneSender(hostname, welcome);
    RecipientHandled(hostname, Greeted().(mailFrom := EMAIL));
    s := NextLine(hostname, welcome, ONE_RECIPIENT[..2], s, RCPT_LINE);
    assert ONE_RECIPIENT[..2] + [LineEvent(RCPT_LINE)] == ONE_RECIPIENT;
    LastConfirms(s.sends[..3], s.sends[3]);
    assert s.sends == s.sends[..3] + [s.sends[3]];
    assert OneRecipientLog() == OneRecipientLog()[..2] + [OneRecipientLog()[2]];
  }

  lemma {:induction false} NoConfirms(sends: seq<Send>)
    requires forall i :: 0 <= i < |sends| ==> !sends[i].confirms
    ensures Confirms(sends) == 0
  {
    if sends != [] {
      NoConfirms(sends[..|sends| - 1]);
    }
  }

  lemma LastConfirms(sends: seq<Send>, last: Send)
    requires last.confirms && forall i :: 0 <= i < |sends| ==> !sends[i].confirms
    ensures Confirms(sends + [last]) == 1
  {
    NoConfirms(sends);
    ConfirmsSnoc(sends, last);
  }

  lemma SendFails(hostname: bytes, welcome: bytes, events: seq<Event>, s: Session, i: nat) returns (s': Session)
    requires Reaches(hostname, welcome, events, s) && Idle(s) && i < |s.sends|
    ensures Reaches(hostname, welcome, events + [Sent(i, false)], s')
    ensures s' == s.(sends := s.sends[..i] + s.sends[i + 1..], stopped := true)
  {
    hide Inv;
    assert (events + [Sent(i, false)])[..|events|] == events;
    s' := Step(hostname, s, Sent(i, false));
  }

  /** The count of unsent replies is not always the number under way: the reply to a RCPT could not be
      sent, and is counted for ever. */
  lemma FailedReplyStaysCounted(hostname: bytes, welcome: bytes) returns (s: Session)
    ensures Reaches(hostname, welcome, ONE_RECIPIENT + [Sent(3, false)], s)
    ensures s.mail.unsended == 1 && Confirms(s.sends) == 0
  {
    hide Reaches, Idle, Confirms, LineEvent;
    s := OneRecipient(hostname, welcome);
    ConfirmsRemove(s.sends, 3);
    s := SendFails(hostname, welcome, ONE_RECIPIENT, s, 3);
  }

  /** A new sender does not begin a new transaction: the recipient of the one before stays. */
  lemma SecondSenderInherits(hostname: bytes, welcome: bytes) returns (s: Session)
    ensures Reaches(hostname, welcome, ONE_RECIPIENT + [LineEvent(MAIL_LINE)], s)
    ensures s.mail.mailFrom.inited && EMAIL in s.mail.rcpts
    ensures RecipientAt(hostname, s.log, EMAIL) == 2 < 3 == SenderAt(hostname, s.log)
  {
    hide HandleLine, After, Idle, Reaches, Takes, TakesRecipient, LineEvent, RecipientAt, SenderAt, Confirms;
    s := OneRecipient(hostname, welcome);
    var m := s.mail;
    SenderHandled(hostname, m);
    s := NextLine(hostname, welcome, ONE_RECIPIENT, s, MAIL_LINE);
    var log, e := OneRecipientLog(), Entry(MAIL_LINE, m);
    LogSnoc(hostname, log, e);
    RecipientSnoc(hostname, log, e, EMAIL);
    NotRecipient(hostname, e, EMAIL);
    RecipientHandled(hostname, log[2].m);
    assert log == log[..2] + [log[2]];
    RecipientSnoc(hostname, log[..2], log[2], EMAIL);
  }

  lemma NotRecipient(hostname: bytes, e: Entry, a: EmailAddr)
    requires Takes(hostname, e, Mail)
    ensures !TakesRecipient(hostname, e, a)
  {
    hide HandleLine, HandlerOf;
    TransactionChanges(hostname, e.m, e.line);
  }

  // ---------------------------------------------------------------- a message

  const BODY: bytes := [104, 105]

  lemma DataHandled(hostname: bytes, m: MailState)
    requires !m.waiting && m.unsended == 0 && m.rcpts != {}
    ensures After(hostname, m, DATA_LINE) == m.(waiting := true, reply := [])
    ensures !HandleLine(hostname, m, DATA_LINE).confirms
  {
    hide HandlerOf, ParseData, IsDataLine, PlainReply;
    DataCommand();
    DataParses();
    DataLines(DATA_LINE);
  }

  lemma NothingPendingForData(s: Session)
    requires Steady(s) && s.cmd.view.lines == [] && s.cmd.view.unparsed == |s.cmd.view.filled| && s.mail.waiting
    ensures var s' := StartReading(s);
            && s'.reading == ReadingData && s'.thrown == s.thrown && s'.stopped == s.stopped
            && s'.mail == s.mail.(data := s'.mail.data) && s'.mail.data.view.filled == [] && s'.handed == s.handed
  {
    hide Capacity.CalcMem;
    assert BufferView.Pending(s.cmd.view) == [];
  }

  /** DATA is accepted, and the session reads data into an empty buffer. */
  lemma DataLineRead(hostname: bytes, s: Session, seen: Seen)
    requires Steady(s) && Inv(hostname, s, seen) && Idle(s) && s.mail.unsended == 0 && s.mail.rcpts != {}
    ensures Enabled(s, LineEvent(DATA_LINE))
    ensures var s' := Step(hostname, s, LineEvent(DATA_LINE));
            && s'.reading == ReadingData && !s'.thrown && !s'.stopped && s'.handed == s.handed
            && s'.mail == s.mail.(waiting := true, reply := [], data := s'.mail.data)
            && s'.mail.data.view.filled == []
  {
    hide HandleLine, ReplyText, Tracks, HasRecorded, Chronicled, Remembers, PBuffer.TakeIn, StartReading, Ascii;
    Spelled();
    DataHandled(hostname, s.mail);
    assert BufferView.Pending(s.cmd.view) == [];
    LineTakenIn(s.cmd, LinesOf(s.log), seen.commands, DATA_LINE);
    var s0 := s.(reading := NotReading, cmd := PBuffer.TakeIn(BufferView.CommandLines, CRLF, s.cmd, DATA_LINE + CRLF));
    assert s0.cmd.view.lines[1..] == [];
    NothingPendingForData(OneLine(hostname, s0));
    assert Begin(hostname, s0) == StartReading(OneLine(hostname, s0));
  }

  lemma BodyEnds()
    ensures var s := BODY + END_OF_DATA;
            && Delimited.Find(END_OF_DATA, s, 0) == Some(|BODY|) && !Delimited.OccursAt(END_OF_DATA, s, 0)
            && s[..|BODY|] == BODY
  {
    Delimited.FindBehind(END_OF_DATA, BODY);
  }

  /** The message arrives, and is handed over. */
  lemma MessageRead(hostname: bytes, s: Session, seen: Seen)
    requires Steady(s) && Inv(hostname, s, seen) && s.reading == ReadingData && !s.thrown
    requires s.mail.data.view.filled == []
    ensures Enabled(s, DataRead(true, BODY + END_OF_DATA))
    ensures var s' := Step(hostname, s, DataRead(true, BODY + END_OF_DATA));
            && |s'.handed| == |s.handed| + 1
            && var m := s'.handed[|s.handed|];
               && m == s.mail.(data := m.data)
               && m.data.view.dataEnd == |BODY| <= |m.data.view.filled| && m.data.view.filled[..|BODY|] == BODY
  {
    hide Delimited.Find, Delimited.OccursAt, Core, HasRecorded, DataDone, PBuffer.TakeIn;
    BodyEnds();
    var chunk := BODY + END_OF_DATA;
    DataTaken(hostname, s, seen, chunk);
    var s1 := s.(reading := NotReading,
                 mail := s.mail.(data := PBuffer.TakeIn(BufferView.MessageData, END_OF_DATA, s.mail.data, chunk)));
    var seen' := seen.(data := seen.data + chunk);
    assert [] + chunk == chunk;
    DataRecorded(hostname, s1, seen');
    DataDoneKeeps(hostname, s1, seen');
  }

  lemma DataRecorded(hostname: bytes, s: Session, seen: Seen)
    requires Core(hostname, s, seen) && s.mail.data.view.filled == BODY + END_OF_DATA
    ensures s.mail.data.view.dataEnd == |BODY|
  {
    hide Delimited.Find, Delimited.OccursAt, HasRecorded, Tracks;
    BodyEnds();
    RecordedExtracts(END_OF_DATA, s.mail.data.view);
  }

  lemma ReplySent(hostname: bytes, s: Session, i: nat)
    requires Steady(s) && Idle(s) && i < |s.sends| && s.sends[i].confirms
    ensures Enabled(s, Sent(i, true))
    ensures var s' := Step(hostname, s, Sent(i, true));
            Idle(s') && s'.mail == s.mail.(unsended := s.mail.unsended - 1) && s'.handed == s.handed
  {
  }

  lemma NextEvent(hostname: bytes, welcome: bytes, events: seq<Event>, s: Session, e: Event) returns (seen: Seen)
    requires Reaches(hostname, welcome, events, s)
    ensures Steady(s) && Inv(hostname, s, seen)
    ensures Enabled(s, e) ==> Reaches(hostname, welcome, events + [e], Step(hostname, s, e))
  {
    hide Inv, Enabled, Step;
    assert (events + [e])[..|events|] == events;
    seen := Run(hostname, welcome, events).seen;
  }

  /** A whole conversation: greeting, sender, recipient, DATA once the reply to the recipient was sent,
      and a message.  It is handed over with its recipient and its text. */
  lemma MessageArrives(hostname: bytes, welcome: bytes) returns (s: Session)
    ensures Reaches(hostname, welcome,
                    ONE_RECIPIENT + [Sent(3, true)] + [LineEvent(DATA_LINE)] + [DataRead(true, BODY + END_OF_DATA)], s)
    ensures |s.handed| == 1 && s.handed[0].rcpts == {EMAIL} && s.handed[0].mailFrom == EMAIL
    ensures var v := s.handed[0].data.view; v.dataEnd == |BODY| <= |v.filled| && v.filled[..|BODY|] == BODY
  {
    hide Reaches, Idle, Confirms, LineEvent, Inv, Enabled, Step, ONE_RECIPIENT;
    s := OneRecipient(hostname, welcome);
    NothingHandedYet(hostname, welcome, s);
    var seen := NextEvent(hostname, welcome, ONE_RECIPIENT, s, Sent(3, true));
    ReplySent(hostname, s, 3);
    s := Step(hostname, s, Sent(3, true));
    var events := ONE_RECIPIENT + [Sent(3, true)];
    seen := NextEvent(hostname, welcome, events, s, LineEvent(DATA_LINE));
    DataLineRead(hostname, s, seen);
    s := Step(hostname, s, LineEvent(DATA_LINE));
    events := events + [LineEvent(DATA_LINE)];
    seen := NextEvent(hostname, welcome, events, s, DataRead(true, BODY + END_OF_DATA));
    MessageRead(hostname, s, seen);
    s := Step(hostname, s, DataRead(true, BODY + END_OF_DATA));
  }

  /** Without an accepted DATA there is no message. */
  lemma NothingHandedYet(hostname: bytes, welcome: bytes, s: Session)
    requires Reaches(hostname, welcome, ONE_RECIPIENT, s) && Idle(s) && s.log == OneRecipientLog()
    ensures s.handed == []
  {
    hide BuffersOk, Confirms, Chronicled, Remembers, AllComplete, Possible, Run, Takes, InOrder, HELO_LINE, MAIL_LINE,
         RCPT_LINE;
    NoDataTaken(hostname, s.log);
    var seen := NextEvent(hostname, welcome, ONE_RECIPIENT, s, Timeout);
  }

  lemma NoDataTaken(hostname: bytes, log: seq<Entry>)
    requires log == OneRecipientLog()
    ensures AcceptedData(hostname, log) == 0
  {
    hide HandleLine, HandlerOf, Ascii;
    HeloCommand();
    MailCommand();
    RcptCommand();
    assert !Takes(hostname, log[0], Data) && !Takes(hostname, log[1], Data) && !Takes(hostname, log[2], Data);
    LogSnoc(hostname, [], log[0]);
    LogSnoc(hostname, [log[0]], log[1]);
    LogSnoc(hostname, [log[0], log[1]], log[2]);
    assert [] + [log[0]] == [log[0]] && [log[0]] + [log[1]] == [log[0], log[1]];
    assert [log[0], log[1]] + [log[2]] == log;
  }
}
