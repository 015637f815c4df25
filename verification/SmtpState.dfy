/** The transaction state of an SMTP session and the command handlers that change it. */
module SmtpState {
  import opened Bytes
  import BufferView
  import opened PBuffer
  import SmtpBuffers
  import opened SmtpText
  import Capacity

  /** The state as a value.  `unsended` counts replies to RCPT that are not yet sent. */
  datatype MailState = MailState(
    rcpts: set<EmailAddr>,
    unsended: int,
    mailFrom: EmailAddr,
    heloInited: bool,
    heloText: bytes,
    waiting: bool,
    reply: bytes,
    closeConn: bool,
    data: Buffer
  )

  const NEW_MAIL: MailState := MailState({}, 0, NO_EMAIL, false, [], false, [], false, NEW_BUFFER)

  /** `reset_transaction` forgets the transaction but not the greeting, and leaves the count of
      unsent replies alone. */
  function ResetMail(m: MailState): MailState {
    m.(rcpts := {}, mailFrom := NO_EMAIL, waiting := false, reply := [], data := NEW_BUFFER)
  }

  /** What a handler leaves: the state, the error, and whether sending its reply will confirm a
      recipient. */
  datatype Handled = Handled(m: MailState, err: SmtpErr, confirms: bool)

  /** The replies to accepted commands, none empty. */
  function HeloReply(hostname: bytes): (r: bytes)
    ensures r != []
  {
    Reply("250 ", hostname)
  }

  function MailReply(a: EmailAddr): (r: bytes)
    ensures r != []
  {
    Reply("250 ", a.text + Ascii(" Parsed email:") + a.text)
  }

  function RcptReply(a: EmailAddr, duplicate: bool): (r: bytes)
    ensures r != []
  {
    if duplicate then Reply("253 ", Ascii("OK. Parsed email:") + a.text + Ascii(" Duplicate. Ignored. "))
    else Reply("250 ", Ascii("OK. Parsed email:") + a.text)
  }

  function PlainCode(h: Handler): string {
    match h
    case Vrfy => "252 "
    case Help => "214 "
    case Quit => "221 "
    case Data => "354 "
    case _ => "250 "
  }

  function PlainText(h: Handler): string {
    match h
    case Vrfy => "Try to send message and a covert will become apparent."
    case Rset => "Flushed."
    case Help => "See RFC https://tools.ietf.org/html/rfc5321"
    case Quit => "Bye!"
    case Data => "Redy to accept data. "
    case _ => "OK"
  }

  function PlainReply(h: Handler): (r: bytes)
    ensures r != []
  {
    Reply(PlainCode(h), Ascii(PlainText(h)))
  }

  function HandleHelo(hostname: bytes, m: MailState, line: bytes): Handled {
    match ParseHelo(line)
    case Bad(e) => Handled(m.(closeConn := true), e, false)
    case Good(arg) => Handled(m.(heloText := arg, heloInited := true, reply := HeloReply(hostname)), NoError, false)
  }

  function HandleMail(m: MailState, line: bytes): Handled {
    if !m.heloInited then Handled(m, HeloNeed, false)
    else match ParseMailFrom(line)
      case Bad(e) => Handled(m, e, false)
      case Good(a) => Handled(m.(mailFrom := a, reply := MailReply(a)), NoError, false)
  }

  function HandleRcpt(m: MailState, line: bytes): Handled {
    if !m.mailFrom.inited then Handled(m, Sync, false)
    else match ParseRcptTo(line)
      case Bad(e) => Handled(m, e, false)
      case Good(a) =>
        if a in m.rcpts then Handled(m.(reply := RcptReply(a, true)), NoError, false)
        else
          Handled(m.(rcpts := m.rcpts + {a}, unsended := m.unsended + 1, reply := RcptReply(a, false)), NoError, true)
  }

  function HandleData(m: MailState, line: bytes): Handled {
    if m.unsended != 0 then Handled(m, Sync, false)
    else if m.rcpts == {} then Handled(m, NoRcpts, false)
    else if ParseData(line) != NoError then Handled(m, ParseData(line), false)
    else Handled(m.(waiting := true, reply := PlainReply(Data)), NoError, false)
  }

  function Handle(hostname: bytes, h: Handler, m: MailState, line: bytes): (r: Handled)
    ensures r.m.data == m.data || r.m.data == NEW_BUFFER
  {
    match h
    case Helo => HandleHelo(hostname, m, line)
    case Mail => HandleMail(m, line)
    case Rcpt => HandleRcpt(m, line)
    case Data => HandleData(m, line)
    case Vrfy => Handled(m.(reply := PlainReply(h)), NoError, false)
    case Rset => Handled(ResetMail(m).(reply := PlainReply(h)), NoError, false)
    case Help => Handled(m.(reply := PlainReply(h)), NoError, false)
    case Noop => Handled(m.(reply := PlainReply(h)), NoError, false)
    case Quit => Handled(m.(closeConn := true, reply := PlainReply(h)), NoError, false)
  }

  /** A line that names no command is unrecognized. */
  function HandleLine(hostname: bytes, m: MailState, line: bytes): (r: Handled)
    ensures r.m.data == m.data || r.m.data == NEW_BUFFER
  {
    match HandlerOf(line)
    case None => Handled(m, Unrecognized, false)
    case Some(h) => Handle(hostname, h, m, line)
  }

  /** Commands come in order: data after recipients, recipients after a sender, a sender after the
      greeting.  While data is awaited no reply to RCPT is unsent. */
  predicate InOrder(m: MailState) {
    && (m.waiting ==> m.rcpts != {} && m.unsended == 0)
    && (m.rcpts != {} ==> m.mailFrom.inited)
    && (m.mailFrom.inited ==> m.heloInited)
  }

  /** What a handler owes the session: it keeps the order, it raises the count exactly when its
      reply will lower it again, the greeting is never lost, and a success has set a reply. */
  predicate Obliges(m: MailState, r: Handled) {
    && (InOrder(m) && !m.waiting ==> InOrder(r.m))
    && r.m.unsended == m.unsended + (if r.confirms then 1 else 0)
    && (r.confirms ==> r.err == NoError)
    && (m.heloInited ==> r.m.heloInited)
    && (r.err == NoError ==> r.m.reply != [])
    && r.err !in {Corrupt, Trcpt}
  }

  lemma ArgumentHandlersOblige(hostname: bytes, m: MailState, line: bytes)
    ensures Obliges(m, HandleHelo(hostname, m, line)) && Obliges(m, HandleMail(m, line))
    ensures Obliges(m, HandleData(m, line))
  {
    hide ParseHelo, ParseMailFrom, ParseData, HeloReply, MailReply, PlainReply;
  }

  lemma RcptObliges(m: MailState, line: bytes)
    ensures Obliges(m, HandleRcpt(m, line))
  {
    hide ParseRcptTo, RcptReply;
  }

  lemma HandlersOblige(hostname: bytes, m: MailState, line: bytes)
    ensures Obliges(m, HandleLine(hostname, m, line))
  {
    hide HandlerOf, HandleHelo, HandleMail, HandleRcpt, HandleData, PlainReply;
    ArgumentHandlersOblige(hostname, m, line);
    RcptObliges(m, line);
  }

  /** Data is awaited exactly after an accepted DATA command. */
  lemma WaitsAfterData(hostname: bytes, m: MailState, line: bytes)
    requires !m.waiting
    ensures var r := HandleLine(hostname, m, line);
            r.m.waiting <==> HandlerOf(line) == Some(Data) && r.err == NoError
  {
    hide ParseHelo, ParseMailFrom, ParseRcptTo, ParseData, HandlerOf, HeloReply, MailReply, RcptReply, PlainReply;
  }

  /** How a line changes the transaction.  Recipients are added by RCPT and removed by RSET only:
      MAIL and HELO, accepted or not, leave them as they are. */
  lemma TransactionChanges(hostname: bytes, m: MailState, line: bytes)
    ensures var (r, h) := (HandleLine(hostname, m, line), HandlerOf(line));
            && (r.confirms <==> h == Some(Rcpt) && r.err == NoError && NewRecipient(line) !in m.rcpts)
            && r.m.rcpts == (if r.confirms then m.rcpts + {NewRecipient(line)}
                             else if h == Some(Rset) then {} else m.rcpts)
            && (h == Some(Mail) && r.err == NoError ==>
                  r.m.mailFrom.inited && ParseMailFrom(line) == Good(r.m.mailFrom))
            && (h == Some(Rset) ==> !r.m.mailFrom.inited)
            && (h !in {Some(Mail), Some(Rset)} || r.err != NoError ==> r.m.mailFrom == m.mailFrom)
  {
    hide ParseHelo, ParseMailFrom, ParseRcptTo, ParseData, HandlerOf, HeloReply, MailReply, RcptReply, PlainReply;
  }

  /** Which lines are accepted.  The commands without an argument always are; the others need a good
      argument, and MAIL a greeting, RCPT a sender, DATA recipients whose replies have all been sent. */
  lemma AcceptedExactly(hostname: bytes, m: MailState, line: bytes)
    ensures HandleLine(hostname, m, line).err == NoError <==>
            match HandlerOf(line)
            case None => false
            case Some(Helo) => ParseHelo(line).Good?
            case Some(Mail) => m.heloInited && ParseMailFrom(line).Good?
            case Some(Rcpt) => m.mailFrom.inited && ParseRcptTo(line).Good?
            case Some(Data) => m.unsended == 0 && m.rcpts != {} && IsDataLine(line)
            case Some(_) => true
  {
    hide ParseHelo, ParseMailFrom, ParseRcptTo, ParseData, HandlerOf, IsDataLine, HeloReply, MailReply, RcptReply,
         PlainReply;
    DataLines(line);
  }

  /** What a line does to the greeting and to the connection.  Only an accepted HELO greets, with its
      argument; only QUIT and a refused HELO close the connection. */
  lemma GreetingChanges(hostname: bytes, m: MailState, line: bytes)
    ensures var (r, h) := (HandleLine(hostname, m, line), HandlerOf(line));
            && (if h == Some(Helo) && r.err == NoError
                then r.m.heloInited && ParseHelo(line) == Good(r.m.heloText)
                else r.m.heloInited == m.heloInited && r.m.heloText == m.heloText)
            && (r.m.closeConn <==> m.closeConn || h == Some(Quit) || (h == Some(Helo) && r.err != NoError))
  {
    hide ParseHelo, ParseMailFrom, ParseRcptTo, ParseData, HandlerOf, HeloReply, MailReply, RcptReply, PlainReply;
  }

  /** The address in a RCPT line. */
  function NewRecipient(line: bytes): EmailAddr {
    match ParseRcptTo(line) case Good(a) => a case Bad(_) => NO_EMAIL
  }

  /** EHLO never succeeds: its handler is that of MAIL, which looks for `mail from`. */
  lemma EhloFails(hostname: bytes, m: MailState, line: bytes)
    requires CmdStr(line) == Ascii("ehlo")
    ensures HandleLine(hostname, m, line).err == if m.heloInited then Unrecognized else HeloNeed
    ensures HandleLine(hostname, m, line).m == m
  {
    hide Bracketed, CmdStr;
    EhloIsMail(line);
    NotMailFrom(line);
  }

  /** The text that answers a line: what the handler put in the state, or the error's text. */
  function ReplyText(r: Handled): bytes {
    if r.err == NoError then r.m.reply else ErrText(r.err)
  }

  lemma ErrorsHaveText(err: SmtpErr)
    ensures ErrText(err) == [] <==> err in {NoError, Corrupt}
  {
  }

  /** No line is answered with silence: every success has set a reply, and every error a handler can
      return has a text. */
  lemma RepliesHaveText(hostname: bytes, m: MailState, line: bytes)
    ensures ReplyText(HandleLine(hostname, m, line)) != []
  {
    hide HandleLine, ErrText;
    HandlersOblige(hostname, m, line);
    ErrorsHaveText(HandleLine(hostname, m, line).err);
  }

  /** A reply line of section 4.2 of RFC 5321: three digits, a space, and a line end.  Its first digit is
      2 or 3 when it is positive, and 5 when it is negative. */
  predicate IsReply(r: bytes, positive: bool) {
    && |r| >= 6
    && (if positive then r[0] in {50, 51} else r[0] == 53)
    && 48 <= r[1] <= 57 && 48 <= r[2] <= 57 && r[3] == 32
    && r[|r| - 2..] == [13, 10]
  }

  /** The codes the program uses. */
  predicate IsCode(code: string, positive: bool) {
    && |code| == 4
    && (if positive then code[0] == '2' || code[0] == '3' else code[0] == '5')
    && '0' <= code[1] <= '9' && '0' <= code[2] <= '9' && code[3] == ' '
  }

  lemma CodeMakesReply(code: string, text: bytes, positive: bool)
    requires IsCode(code, positive)
    ensures IsReply(Reply(code, text), positive)
  {
    var r, c := Reply(code, text), Ascii(code);
    assert r[0] == c[0] && r[1] == c[1] && r[2] == c[2] && r[3] == c[3];
  }

  lemma PlainReplyIsReply(h: Handler)
    ensures IsReply(PlainReply(h), true)
  {
    hide IsReply, Ascii, Reply, PlainText;
    CodeMakesReply(PlainCode(h), Ascii(PlainText(h)), true);
  }

  lemma OkIsReply(text: bytes)
    ensures IsReply(Reply("250 ", text), true) && IsReply(Reply("253 ", text), true)
  {
    hide IsReply, Reply;
    CodeMakesReply("250 ", text, true);
    CodeMakesReply("253 ", text, true);
  }

  lemma AddressRepliesAreReplies(hostname: bytes, a: EmailAddr, duplicate: bool)
    ensures IsReply(HeloReply(hostname), true) && IsReply(MailReply(a), true) && IsReply(RcptReply(a, duplicate), true)
  {
    hide IsReply, Reply;
    OkIsReply(hostname);
    OkIsReply(a.text + Ascii(" Parsed email:") + a.text);
    OkIsReply(Ascii("OK. Parsed email:") + a.text + Ascii(" Duplicate. Ignored. "));
    OkIsReply(Ascii("OK. Parsed email:") + a.text);
  }

  lemma ErrTextIsReply(err: SmtpErr)
    requires err !in {NoError, Corrupt}
    ensures IsReply(ErrText(err), false)
  {
    hide IsReply, Ascii, Reply;
    CodeMakesReply(ErrMessage(err).value.0, Ascii(ErrMessage(err).value.1), false);
  }

  /** Every answer is one reply line, positive exactly when the command was accepted. */
  lemma RepliesAreReplies(hostname: bytes, m: MailState, line: bytes)
    ensures var r := HandleLine(hostname, m, line); IsReply(ReplyText(r), r.err == NoError)
  {
    hide ParseHelo, ParseMailFrom, ParseRcptTo, ParseData, HandlerOf, HeloReply, MailReply, RcptReply, PlainReply,
         ErrText, IsReply;
    if HandlerOf(line).Some? {
      PlainReplyIsReply(HandlerOf(line).value);
      AddressRepliesAreReplies(hostname, NewRecipient(line), true);
      AddressRepliesAreReplies(hostname, NewRecipient(line), false);
      AddressRepliesAreReplies(hostname, HandleLine(hostname, m, line).m.mailFrom, false);
    }
    HandlersOblige(hostname, m, line);
    var r := HandleLine(hostname, m, line);
    if r.err != NoError {
      ErrTextIsReply(r.err);
    }
  }

  // ---------------------------------------------------------------- the object

  /** `IncSmtpState`.  Message data is received in a parsing buffer of its own. */
  class IncSmtpState {
    var recipients: set<EmailAddr>
    var unsendedResponds: int
    var mailform: EmailAddr
    var heloInited: bool
    var heloText: bytes
    var waitingForData: bool
    var curentReply: bytes
    var closeConn: bool
    var messageData: ParsingBuffer

    ghost predicate Valid()
      reads this, messageData, messageData.cdata
    {
      && messageData.Valid()
      && messageData.hook == BufferView.MessageData && messageData.delimiter == SmtpBuffers.END_OF_DATA
    }

    ghost function Value(): (m: MailState)
      reads this, messageData, messageData.cdata
      requires Valid()
      ensures m.closeConn == closeConn && m.waiting == waitingForData
      ensures m.rcpts == recipients && m.mailFrom == mailform
    {
      MailState(recipients, unsendedResponds, mailform, heloInited, heloText, waitingForData, curentReply, closeConn,
                messageData.Value())
    }

    constructor ()
      ensures Valid() && fresh(messageData) && fresh(messageData.cdata)
      ensures Value() == NEW_MAIL
    {
      hide ParsingBuffer.Valid, ParsingBuffer.Value, Capacity.Initial;
      recipients, unsendedResponds, mailform := {}, 0, NO_EMAIL;
      heloInited, heloText := false, [];
      waitingForData, curentReply, closeConn := false, [], false;
      messageData := new ParsingBuffer(SmtpBuffers.END_OF_DATA, BufferView.MessageData);
    }

    /** The state is in order again, whatever it was, with a data buffer of its own; the greeting
        and the count of unsent replies survive, and the old buffer is untouched. */
    method ResetTransaction()
      requires Valid()
      modifies this`recipients, this`mailform, this`waitingForData, this`curentReply, this`messageData
      ensures Valid() && fresh(messageData) && fresh(messageData.cdata)
      ensures Value() == ResetMail(old(Value())) && InOrder(Value())
    {
      hide ParsingBuffer.Valid, ParsingBuffer.Value;
      recipients := {};
      mailform := NO_EMAIL;
      waitingForData := false;
      curentReply := [];
      messageData := new ParsingBuffer(SmtpBuffers.END_OF_DATA, BufferView.MessageData);
    }

    /** A reply is set, and nothing else. */
    method SetReply(reply: bytes)
      requires Valid()
      modifies this`curentReply
      ensures Valid() && Value() == old(Value()).(reply := reply)
    {
      hide ParsingBuffer.Valid, ParsingBuffer.Value;
      curentReply := reply;
    }

    /** The reply leaves the state. */
    method TakeReply() returns (reply: bytes)
      requires Valid()
      modifies this`curentReply
      ensures Valid() && reply == old(Value()).reply && Value() == old(Value()).(reply := [])
    {
      reply := curentReply;
      curentReply := [];
    }

    /** The greeting of an earlier transaction counts for this one. */
    method AdoptGreeting(other: IncSmtpState)
      requires Valid() && other.Valid()
      modifies this`heloInited, this`heloText
      ensures Valid()
      ensures var v := old(other.Value());
              Value() == old(Value()).(heloInited := v.heloInited, heloText := v.heloText)
    {
      heloInited := other.heloInited;
      heloText := other.heloText;
    }

    /** Refusing the greeting closes the connection; nothing but the greeting and the reply changes. */
    method HeloHandler(hostname: bytes, line: bytes) returns (err: SmtpErr, confirms: bool)
      requires Valid()
      modifies this`heloInited, this`heloText, this`curentReply, this`closeConn
      ensures Valid() && Handled(Value(), err, confirms) == HandleHelo(hostname, old(Value()), line)
      ensures Obliges(old(Value()), Handled(Value(), err, confirms))
      ensures err == NoError <==> ParseHelo(line).Good?
      ensures if err == NoError then Good(heloText) == ParseHelo(line) else heloText == old(heloText)
      ensures heloInited <==> old(heloInited) || err == NoError
      ensures closeConn <==> old(closeConn) || err != NoError
    {
      hide ParsingBuffer.Valid, ParsingBuffer.Value, ParseHelo, HeloReply;
      confirms := false;
      match ParseHelo(line) {
        case Bad(e) =>
          closeConn := true;
          err := e;
        case Good(arg) =>
          heloText := arg;
          heloInited := true;
          curentReply := HeloReply(hostname);
          err := NoError;
      }
    }

    /** A sender is taken only after the greeting; recipients taken before stay. */
    method MailHandler(line: bytes) returns (err: SmtpErr, confirms: bool)
      requires Valid()
      modifies this`mailform, this`curentReply
      ensures Valid() && Handled(Value(), err, confirms) == HandleMail(old(Value()), line)
      ensures Obliges(old(Value()), Handled(Value(), err, confirms))
      ensures err == NoError <==> heloInited && ParseMailFrom(line).Good?
      ensures err == HeloNeed <==> !heloInited
      ensures err == NoError ==> mailform.inited && ParseMailFrom(line) == Good(mailform)
      ensures err != NoError ==> mailform == old(mailform) && curentReply == old(curentReply)
    {
      hide ParsingBuffer.Valid, ParsingBuffer.Value, ParseMailFrom, MailReply;
      confirms := false;
      if !heloInited {
        return HeloNeed, false;
      }
      match ParseMailFrom(line) {
        case Bad(e) => err := e;
        case Good(a) =>
          mailform := a;
          curentReply := MailReply(a);
          err := NoError;
      }
    }

    /** A new recipient is kept and counted, and the reply confirms it. */
    method AddRecipient(a: EmailAddr)
      requires Valid()
      modifies this`recipients, this`unsendedResponds, this`curentReply
      ensures Valid()
      ensures var v := old(Value());
              Value() == v.(rcpts := v.rcpts + {a}, unsended := v.unsended + 1, reply := RcptReply(a, false))
    {
      hide ParsingBuffer.Valid, ParsingBuffer.Value, RcptReply;
      recipients := recipients + {a};
      curentReply := RcptReply(a, false);
      unsendedResponds := unsendedResponds + 1;
    }

    /** A recipient is taken only after a sender; a reply that will confirm is one for a recipient
        not had before, and only such a one is counted. */
    method RcptHandler(line: bytes) returns (err: SmtpErr, confirms: bool)
      requires Valid()
      modifies this`recipients, this`unsendedResponds, this`curentReply
      ensures Valid() && Handled(Value(), err, confirms) == HandleRcpt(old(Value()), line)
      ensures Obliges(old(Value()), Handled(Value(), err, confirms))
      ensures err == NoError <==> mailform.inited && ParseRcptTo(line).Good?
      ensures err == Sync <==> !mailform.inited
      ensures recipients == old(recipients) + if err == NoError then {NewRecipient(line)} else {}
      ensures confirms <==> err == NoError && NewRecipient(line) !in old(recipients)
      ensures |recipients| == old(|recipients|) + (if confirms then 1 else 0) && old(recipients) <= recipients
    {
      hide ParsingBuffer.Valid, ParsingBuffer.Value, IncSmtpState.Value, ParseRcptTo, RcptReply, Obliges;
      RcptObliges(Value(), line);
      confirms := false;
      if !mailform.inited {
        return Sync, false;
      }
      match ParseRcptTo(line) {
        case Bad(e) => err := e;
        case Good(a) =>
          err := NoError;
          if a !in recipients {
            AddRecipient(a);
            confirms := true;
          } else {
            SetReply(RcptReply(a, true));
          }
      }
    }

    /** Data is awaited exactly when the command is accepted, and that takes recipients whose
        replies have all been sent. */
    method DataHandler(line: bytes) returns (err: SmtpErr, confirms: bool)
      requires Valid()
      modifies this`waitingForData, this`curentReply
      ensures Valid() && Handled(Value(), err, confirms) == HandleData(old(Value()), line)
      ensures Obliges(old(Value()), Handled(Value(), err, confirms))
      ensures waitingForData <==> old(waitingForData) || err == NoError
      ensures err == NoError <==> unsendedResponds == 0 && recipients != {} && IsDataLine(line)
      ensures err == Sync <==> unsendedResponds != 0
      ensures err == NoRcpts <==> unsendedResponds == 0 && recipients == {}
    {
      hide ParsingBuffer.Valid, ParsingBuffer.Value, ParseData, IsDataLine, PlainReply;
      DataLines(line);
      confirms := false;
      if unsendedResponds != 0 {
        return Sync, false;
      }
      if recipients == {} {
        return NoRcpts, false;
      }
      err := ParseData(line);
      if err != NoError {
        return;
      }
      waitingForData := true;
      curentReply := PlainReply(Data);
    }

    /** RSET ends the transaction and nothing else. */
    method RsetHandler() returns (err: SmtpErr, confirms: bool)
      requires Valid()
      modifies this`recipients, this`mailform, this`waitingForData, this`curentReply, this`messageData
      ensures Valid() && fresh(messageData) && fresh(messageData.cdata)
      ensures Value() == ResetMail(old(Value())).(reply := PlainReply(Rset)) && err == NoError && !confirms
      ensures InOrder(Value()) && recipients == {} && !mailform.inited
    {
      hide ParsingBuffer.Valid, ParsingBuffer.Value, IncSmtpState.Value, PlainReply;
      ResetTransaction();
      SetReply(PlainReply(Rset));
      err, confirms := NoError, false;
    }

    /** The remaining handlers, which cannot fail; only QUIT closes the connection. */
    method PlainHandler(h: Handler) returns (err: SmtpErr, confirms: bool)
      requires Valid() && h in {Vrfy, Help, Noop, Quit}
      modifies this`closeConn, this`curentReply
      ensures Valid() && err == NoError && !confirms
      ensures Value() == old(Value()).(closeConn := closeConn, reply := PlainReply(h))
      ensures closeConn <==> old(closeConn) || h == Quit
    {
      hide ParsingBuffer.Valid, ParsingBuffer.Value, PlainReply;
      err, confirms := NoError, false;
      if h == Quit {
        closeConn := true;
      }
      curentReply := PlainReply(h);
    }

    /** `_call_mapped_cmd_handler`: look the command up and run its handler. */
    method CallMappedHandler(hostname: bytes, line: bytes) returns (err: SmtpErr, confirms: bool)
      requires Valid()
      modifies this
      ensures Valid() && (messageData == old(messageData) || (fresh(messageData) && fresh(messageData.cdata)))
      ensures Handled(Value(), err, confirms) == HandleLine(hostname, old(Value()), line)
      ensures Obliges(old(Value()), Handled(Value(), err, confirms))
    {
      hide ParsingBuffer.Valid, ParsingBuffer.Value, IncSmtpState.Value, HandleHelo, HandleMail, HandleRcpt,
           HandleData, HandlerOf, Obliges, PlainReply, ResetMail, InOrder;
      HandlersOblige(hostname, Value(), line);
      match HandlerOf(line) {
        case None =>
          err, confirms := Unrecognized, false;
        case Some(h) =>
          match h {
            case Helo => err, confirms := HeloHandler(hostname, line);
            case Mail => err, confirms := MailHandler(line);
            case Rcpt => err, confirms := RcptHandler(line);
            case Data => err, confirms := DataHandler(line);
            case Rset => err, confirms := RsetHandler();
            case _ => err, confirms := PlainHandler(h);
          }
      }
    }
  }
}
