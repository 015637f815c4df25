/** The text of SMTP command lines and replies: which handler a line calls and what its argument
    parsers make of it. */
module SmtpText {
  import opened Bytes
  import opened Tokens
  import DnsRoundTrip

  datatype SmtpErr = NoError | HeloNeed | Trcpt | Sync | Corrupt | Unrecognized | Syntax | EmlFormat | NoRcpts

  const LINE_END: bytes := [13, 10]

  /** A reply line: a code, a space and a text. */
  function Reply(code: string, text: bytes): bytes {
    Ascii(code) + text + LINE_END
  }

  /** The table of messages, code and text; `None` for what is not in it. */
  function ErrMessage(err: SmtpErr): Option<(string, string)> {
    match err
    case HeloNeed => Some(("503 ", "EHLO/HELO needed."))
    case Syntax => Some(("501 ", "Syntax error in params."))
    case Unrecognized => Some(("500 ", "Syntax error, command unrecognised."))
    case Sync => Some(("503 ", "Bad sequence of commands."))
    case Trcpt => Some(("503 ", "More then 1 rcpts in transaction."))
    case EmlFormat => Some(("511 ", "Bad <reverse-path> email addres."))
    case NoRcpts => Some(("503 ", "RCPT first."))
    case NoError => None
    case Corrupt => None
  }

  /** `err_to_str`. */
  function ErrText(err: SmtpErr): bytes {
    match ErrMessage(err) case None => [] case Some((code, text)) => Reply(code, Ascii(text))
  }

  const SPACE: byte := 32
  const COLON: byte := 58
  const AT: byte := 64

  predicate IsSpace(c: byte) {
    c == 32 || 9 <= c <= 13
  }

  function Lower(s: bytes): bytes {
    seq(|s|, i requires 0 <= i < |s| => if 65 <= s[i] <= 90 then s[i] + 32 else s[i])
  }

  function TrimLeft(s: bytes): bytes {
    if s != [] && IsSpace(s[0]) then TrimLeft(s[1..]) else s
  }

  function TrimRight(s: bytes): bytes {
    if s != [] && IsSpace(s[|s| - 1]) then TrimRight(s[..|s| - 1]) else s
  }

  function Trim(s: bytes): bytes {
    TrimLeft(TrimRight(s))
  }

  /** The first position at or after `from` where the byte is `d` (or, with `other`, is not). */
  function IndexOf(s: bytes, d: byte, from: nat, other: bool): (j: nat)
    requires from <= |s|
    ensures from <= j <= |s|
    decreases |s| - from
  {
    if from == |s| || (s[from] == d) != other then from else IndexOf(s, d, from + 1, other)
  }

  /** `cut_part` for the first part: it goes with the delimiters next to it. */
  function CutFirst(s: bytes, d: byte): bytes {
    var b := IndexOf(s, d, 0, true);
    if b == |s| then s
    else
      var e := IndexOf(s, d, b, false);
      s[..if b > 0 then b - 1 else b] + s[if e < |s| then e + 1 else e..]
  }

  function PartOr(ws: seq<bytes>, k: int): bytes {
    if 0 <= k < |ws| then ws[k] else []
  }

  datatype EmailAddr = EmailAddr(text: bytes, localpart: bytes, domain: bytes, inited: bool)

  const NO_EMAIL: EmailAddr := EmailAddr([], [], [], false)

  /** `EmailAddr::set`. */
  function EmailOf(email: bytes): (r: Option<EmailAddr>)
    ensures r.Some? ==> r.value.inited && r.value.text == email != []
    ensures r.Some? ==> 1 <= |r.value.localpart| <= 128 && DnsRoundTrip.IsFqdn(r.value.domain)
  {
    assert email == [] ==> Words(email, AT) == [] by {
      NoWords(email, AT);
      assert email[..0] == [];
    }
    var ws := Words(email, AT);
    var localpart, domain := PartOr(ws, 0), PartOr(ws, 1);
    if |localpart| < 1 || |localpart| > 128 then None
    else if !DnsRoundTrip.IsFqdn(domain) then None
    else Some(EmailAddr(email, localpart, domain, true))
  }

  datatype Argument<T> = Good(value: T) | Bad(err: SmtpErr)

  /** `get_cmd_str`. */
  function CmdStr(line: bytes): bytes {
    if |line| >= 4 then Lower(line[..IndexOf(line, SPACE, 0, false)]) else []
  }

  function ParseHelo(line: bytes): (r: Argument<bytes>)
    ensures r.Bad? ==> r.err in {Unrecognized, Syntax}
  {
    if |line| < 5 || !IsSpace(line[4]) then Bad(Unrecognized)
    else
      var parts := Kept(Split(line, SPACE), true);
      if |parts| != 2 then Bad(Syntax) else Good(parts[1])
  }

  /** The argument in angle brackets after a two-word command and a colon. */
  function Bracketed(line: bytes, command: bytes): (r: Argument<bytes>)
    ensures r.Bad? ==> r.err in {Unrecognized, Syntax}
  {
    if Lower(Collapse(PartOr(Words(line, COLON), 0), SPACE)) != command then Bad(Unrecognized)
    else
      var arg := Trim(CutFirst(line, COLON));
      if |arg| < 2 || arg[0] != 60 || arg[|arg| - 1] != 62 then Bad(Syntax)
      else Good(arg[1..|arg| - 1])
  }

  function ParseMailFrom(line: bytes): (r: Argument<EmailAddr>)
    ensures r.Good? ==> r.value.inited
    ensures r.Bad? ==> r.err in {Unrecognized, Syntax, EmlFormat}
  {
    match Bracketed(line, Ascii("mail from"))
    case Bad(e) => Bad(e)
    case Good(path) => match EmailOf(path) case None => Bad(EmlFormat) case Some(a) => Good(a)
  }

  function ParseRcptTo(line: bytes): (r: Argument<EmailAddr>)
    ensures r.Good? ==> r.value.inited
    ensures r.Bad? ==> r.err in {Unrecognized, Syntax, EmlFormat}
  {
    match Bracketed(line, Ascii("rcpt to"))
    case Bad(e) => Bad(e)
    case Good(path) =>
      var ws := Words(path, COLON);
      match EmailOf(PartOr(ws, |ws| - 1)) case None => Bad(EmlFormat) case Some(a) => Good(a)
  }

  function ParseData(line: bytes): (r: SmtpErr)
    ensures r in {NoError, Unrecognized}
  {
    if Lower(Trim(line)) == Ascii("data") then NoError else Unrecognized
  }

  datatype Handler = Helo | Mail | Rcpt | Data | Vrfy | Rset | Help | Noop | Quit

  /** The command table; `ehlo` is bound to the handler of `mail`. */
  function HandlerOf(line: bytes): Option<Handler> {
    var c := CmdStr(line);
    if c == Ascii("helo") then Some(Helo)
    else if c == Ascii("mail") || c == Ascii("ehlo") then Some(Mail)
    else if c == Ascii("rcpt") then Some(Rcpt)
    else if c == Ascii("data") then Some(Data)
    else if c == Ascii("vrfy") then Some(Vrfy)
    else if c == Ascii("rset") then Some(Rset)
    else if c == Ascii("help") then Some(Help)
    else if c == Ascii("noop") then Some(Noop)
    else if c == Ascii("quit") then Some(Quit)
    else None
  }

  // ---------------------------------------------------------------- words in any case

  predicate IsLetter(c: byte) {
    65 <= c <= 90 || 97 <= c <= 122
  }

  /** The same byte, or the two cases of a letter. */
  predicate SameLetter(a: byte, b: byte) {
    a == b || (IsLetter(a) && IsLetter(b) && (a == b + 32 || b == a + 32))
  }

  predicate SameWord(s: bytes, t: bytes) {
    |s| == |t| && forall i :: 0 <= i < |s| ==> SameLetter(s[i], t[i])
  }

  predicate NoCapitals(s: bytes) {
    forall i :: 0 <= i < |s| ==> !(65 <= s[i] <= 90)
  }

  /** Folding decides whether a word is a given one in any case. */
  lemma LowerFolds(s: bytes, t: bytes)
    requires NoCapitals(t)
    ensures Lower(s) == t <==> SameWord(s, t)
  {
    if Lower(s) == t {
      forall i | 0 <= i < |s| ensures SameLetter(s[i], t[i]) {
        assert Lower(s)[i] == t[i];
      }
    }
  }

  /** The commands of section 4.1.1 of RFC 5321 the program knows, and their handlers. */
  const COMMANDS: seq<(bytes, Handler)> := [
    (Ascii("helo"), Helo), (Ascii("ehlo"), Mail), (Ascii("mail"), Mail), (Ascii("rcpt"), Rcpt), (Ascii("data"), Data),
    (Ascii("rset"), Rset), (Ascii("vrfy"), Vrfy), (Ascii("help"), Help), (Ascii("noop"), Noop), (Ascii("quit"), Quit)
  ]

  lemma CommandsSpelled()
    ensures Ascii("helo") == [104, 101, 108, 111] && Ascii("ehlo") == [101, 104, 108, 111]
    ensures Ascii("mail") == [109, 97, 105, 108] && Ascii("rcpt") == [114, 99, 112, 116]
    ensures Ascii("data") == [100, 97, 116, 97] && Ascii("rset") == [114, 115, 101, 116]
    ensures Ascii("vrfy") == [118, 114, 102, 121] && Ascii("help") == [104, 101, 108, 112]
    ensures Ascii("noop") == [110, 111, 111, 112] && Ascii("quit") == [113, 117, 105, 116]
  {
  }

  lemma CommandsAreWords(i: nat)
    requires i < |COMMANDS|
    ensures |COMMANDS[i].0| == 4 && NoCapitals(COMMANDS[i].0)
  {
    hide Ascii;
    CommandsSpelled();
  }

  /** What a folded word calls. */
  lemma FoldedCommand(line: bytes, i: nat)
    requires i < |COMMANDS| && CmdStr(line) == COMMANDS[i].0
    ensures HandlerOf(line) == Some(COMMANDS[i].1)
  {
    hide CmdStr, Ascii;
    CommandsSpelled();
  }

  lemma NotFolded(line: bytes)
    requires forall i :: 0 <= i < |COMMANDS| ==> CmdStr(line) != COMMANDS[i].0
    ensures HandlerOf(line) == None
  {
    hide CmdStr, Ascii;
    var c := CmdStr(line);
    assert c != COMMANDS[0].0 && c != COMMANDS[1].0 && c != COMMANDS[2].0 && c != COMMANDS[3].0 && c != COMMANDS[4].0;
    assert c != COMMANDS[5].0 && c != COMMANDS[6].0 && c != COMMANDS[7].0 && c != COMMANDS[8].0 && c != COMMANDS[9].0;
  }

  /** The line is the word, alone or before a space. */
  predicate BeginsWith(line: bytes, word: bytes) {
    SPACE !in word && (line == word || word + [SPACE] <= line)
  }

  lemma CommandFolds(line: bytes, word: bytes)
    requires BeginsWith(line, word)
    ensures CmdStr(line) == if |line| >= 4 then Lower(word) else []
  {
    forall k | 0 <= k < |word| ensures line[k] != SPACE {
      assert line[k] == (word + [SPACE])[k] == word[k] && word[k] in word;
    }
    assert |word| < |line| ==> line[|word|] == (word + [SPACE])[|word|];
    IndexOfIs(line, SPACE, 0, false, |word|);
    assert line[..|word|] == word;
  }

  /** Commands are recognised in any case: a line that begins with a word of the table calls its
      handler, and a line that begins with any other word calls none. */
  lemma CommandTable(line: bytes, word: bytes)
    requires BeginsWith(line, word)
    ensures forall i :: 0 <= i < |COMMANDS| && SameWord(word, COMMANDS[i].0) ==> HandlerOf(line) == Some(COMMANDS[i].1)
    ensures (forall i :: 0 <= i < |COMMANDS| ==> !SameWord(word, COMMANDS[i].0)) ==> HandlerOf(line) == None
  {
    hide HandlerOf, CmdStr, Lower, COMMANDS;
    CommandFolds(line, word);
    forall i | 0 <= i < |COMMANDS| ensures CmdStr(line) == COMMANDS[i].0 <==> SameWord(word, COMMANDS[i].0) {
      CommandsAreWords(i);
      LowerFolds(word, COMMANDS[i].0);
    }
    forall i | 0 <= i < |COMMANDS| && SameWord(word, COMMANDS[i].0) ensures HandlerOf(line) == Some(COMMANDS[i].1) {
      FoldedCommand(line, i);
    }
    if forall i :: 0 <= i < |COMMANDS| ==> !SameWord(word, COMMANDS[i].0) {
      NotFolded(line);
    }
  }

  // ---------------------------------------------------------------- white space

  predicate Blank(s: bytes) {
    forall i :: 0 <= i < |s| ==> IsSpace(s[i])
  }

  lemma {:induction false} TrimRightIs(w: bytes, b: bytes)
    requires w != [] && !IsSpace(w[|w| - 1]) && Blank(b)
    ensures TrimRight(w + b) == w
    decreases |b|
  {
    var s := w + b;
    if b == [] {
      assert s == w;
    } else {
      assert s[..|s| - 1] == w + b[..|b| - 1];
      TrimRightIs(w, b[..|b| - 1]);
    }
  }

  lemma {:induction false} TrimLeftIs(a: bytes, w: bytes)
    requires w != [] && !IsSpace(w[0]) && Blank(a)
    ensures TrimLeft(a + w) == w
    decreases |a|
  {
    var s := a + w;
    if a == [] {
      assert s == w;
    } else {
      assert s[1..] == a[1..] + w;
      TrimLeftIs(a[1..], w);
    }
  }

  /** Trimming takes the white space around a text, and nothing else. */
  lemma TrimIs(a: bytes, w: bytes, b: bytes)
    requires w != [] && !IsSpace(w[0]) && !IsSpace(w[|w| - 1]) && Blank(a) && Blank(b)
    ensures Trim(a + w + b) == w
  {
    var aw := a + w;
    assert aw[|aw| - 1] == w[|w| - 1];
    TrimRightIs(aw, b);
    TrimLeftIs(a, w);
  }

  lemma {:induction false} TrimRightCuts(s: bytes)
    ensures TrimRight(s) <= s && Blank(s[|TrimRight(s)|..])
  {
    if s != [] && IsSpace(s[|s| - 1]) {
      TrimRightCuts(s[..|s| - 1]);
      var n := |TrimRight(s)|;
      assert s[n..] == s[..|s| - 1][n..] + [s[|s| - 1]];
    }
  }

  lemma {:induction false} TrimLeftCuts(s: bytes)
    ensures |TrimLeft(s)| <= |s|
    ensures s[|s| - |TrimLeft(s)|..] == TrimLeft(s) && Blank(s[..|s| - |TrimLeft(s)|])
  {
    if s != [] && IsSpace(s[0]) {
      TrimLeftCuts(s[1..]);
      var n := |s| - |TrimLeft(s)|;
      assert s[..n] == [s[0]] + s[1..][..n - 1];
    }
  }

  /** What is left is the text between two stretches of white space. */
  lemma TrimCuts(s: bytes) returns (i: nat, j: nat)
    ensures i <= j <= |s| && Trim(s) == s[i..j] && Blank(s[..i]) && Blank(s[j..])
  {
    var r := TrimRight(s);
    TrimRightCuts(s);
    TrimLeftCuts(r);
    j := |r|;
    i := |r| - |TrimLeft(r)|;
    assert r == s[..j] && s[i..j] == r[i..] && s[..i] == r[..i];
  }

  /** The line of a DATA command: the word, in any case, between white space. */
  ghost predicate IsDataLine(line: bytes) {
    exists i, j :: 0 <= i <= j <= |line| && Blank(line[..i]) && Blank(line[j..]) &&
                   SameWord(line[i..j], [100, 97, 116, 97])
  }

  lemma DataLines(line: bytes)
    ensures ParseData(line) == NoError <==> IsDataLine(line)
  {
    hide Trim, Lower, Blank;
    var word: bytes := [100, 97, 116, 97];
    assert Ascii("data") == word;
    LowerFolds(Trim(line), word);
    if ParseData(line) == NoError {
      var i, j := TrimCuts(line);
      assert SameWord(line[i..j], word);
    }
    if IsDataLine(line) {
      var i, j :| 0 <= i <= j <= |line| && Blank(line[..i]) && Blank(line[j..]) && SameWord(line[i..j], word);
      DataWordIsNoSpace(line[i..j]);
      TrimIs(line[..i], line[i..j], line[j..]);
      assert line == line[..i] + line[i..j] + line[j..];
    }
  }

  lemma DataWordIsNoSpace(w: bytes)
    requires SameWord(w, [100, 97, 116, 97])
    ensures |w| == 4 && !IsSpace(w[0]) && !IsSpace(w[3])
  {
    assert SameLetter(w[0], 100) && SameLetter(w[3], 97);
  }

  // ---------------------------------------------------------------- well-formed arguments

  lemma {:induction false} IndexOfIs(s: bytes, d: byte, from: nat, other: bool, j: nat)
    requires from <= j <= |s| && (j < |s| ==> (s[j] == d) != other)
    requires forall k :: from <= k < j ==> (s[k] == d) == other
    ensures IndexOf(s, d, from, other) == j
    decreases j - from
  {
    if from < j {
      IndexOfIs(s, d, from + 1, other, j);
    }
  }

  lemma FirstWord(cmd: bytes, rest: bytes, d: byte)
    requires cmd != [] && d !in cmd
    ensures Words(cmd + [d] + rest, d) != [] && Words(cmd + [d] + rest, d)[0] == cmd
  {
    var s := cmd + [d] + rest;
    assert s[0..|cmd|] == cmd;
    WordsRun(s, d, 0, |cmd|);
    NoWords(s, d);
    WordsStay(s, d, |cmd|);
    assert Words(s[..|cmd|], d)[0] == cmd;
  }

  lemma CutsFirst(cmd: bytes, rest: bytes, d: byte)
    requires cmd != [] && d !in cmd
    ensures CutFirst(cmd + [d] + rest, d) == rest
  {
    var s := cmd + [d] + rest;
    assert s[0] == cmd[0] && cmd[0] in cmd;
    IndexOfIs(s, d, 0, true, 0);
    forall k | 0 <= k < |cmd| ensures s[k] != d {
      assert s[k] == cmd[k] && cmd[k] in cmd;
    }
    IndexOfIs(s, d, 0, false, |cmd|);
    assert s[..0] + s[|cmd| + 1..] == rest;
  }

  /** The first word of a string that does not begin with a delimiter begins it. */
  lemma FirstWordBegins(s: bytes, d: byte)
    requires s != [] && s[0] != d
    ensures Words(s, d) != [] && Words(s, d)[0] != [] && Words(s, d)[0][0] == s[0]
  {
    hide Words;
    var e := IndexOf(s, d, 0, false);
    IndexFinds(s, d, 0, e);
    var cmd := s[..e];
    if e < |s| {
      assert s == cmd + [d] + s[e + 1..];
      FirstWord(cmd, s[e + 1..], d);
    } else {
      assert s[0..|s|] == s == s[..|s|];
      WordsRun(s, d, 0, |s|);
      NoWords(s, d);
      assert Words(s, d) == [s];
    }
  }

  lemma {:induction false} IndexFinds(s: bytes, d: byte, from: nat, j: nat)
    requires from <= |s| && j == IndexOf(s, d, from, false)
    ensures d !in s[from..j] && (j < |s| ==> s[j] == d) && (from < |s| && s[from] != d ==> from < j)
    decreases |s| - from
  {
    if from < |s| && s[from] != d {
      IndexFinds(s, d, from + 1, j);
      assert s[from..j] == [s[from]] + s[from + 1..j];
    }
  }

  lemma {:induction false} CollapseBegins(s: bytes, c: byte)
    requires s != []
    ensures Collapse(s, c)[0] == s[0]
  {
    if |s| > 1 {
      CollapseBegins(s[..|s| - 1], c);
    }
  }

  lemma EhloIsMail(line: bytes)
    requires CmdStr(line) == Ascii("ehlo")
    ensures HandlerOf(line) == Some(Mail)
  {
    hide CmdStr;
    assert Ascii("ehlo")[0] != Ascii("helo")[0];
  }

  /** A line whose command is `ehlo` does not begin with `mail from`, in any spelling. */
  lemma NotMailFrom(line: bytes)
    requires CmdStr(line) == Ascii("ehlo")
    ensures ParseMailFrom(line) == Bad(Unrecognized)
  {
    hide Words, Collapse, CutFirst, Trim;
    assert Ascii("ehlo")[0] == 101 && Ascii("mail from")[0] == 109;
    FirstWordBegins(line, COLON);
    CollapseBegins(Words(line, COLON)[0], SPACE);
    assert Lower(Collapse(Words(line, COLON)[0], SPACE))[0] == 101;
  }

  const LEFT: bytes := [60]
  const RIGHT: bytes := [62]

  /** Command words, a colon, and a path in angle brackets: the path is what the parser takes, if the
      words are the expected ones in any case and with any number of spaces between them, and the
      line is refused if they are not. */
  lemma BracketedReads(cmd: bytes, path: bytes, command: bytes)
    requires cmd != [] && COLON !in cmd && NoCapitals(command)
    ensures Bracketed(cmd + [COLON] + (LEFT + path + RIGHT), command)
         == if SameWord(Collapse(cmd, SPACE), command) then Good(path) else Bad(Unrecognized)
  {
    hide Words, CutFirst, Lower, Collapse, Trim, SameWord;
    var arg := LEFT + path + RIGHT;
    FirstWord(cmd, arg, COLON);
    CutsFirst(cmd, arg, COLON);
    LowerFolds(Collapse(cmd, SPACE), command);
    TrimIs([], arg, []);
    assert [] + arg + [] == arg;
    assert arg[1..|arg| - 1] == path;
  }

  lemma ArgumentWords()
    ensures NoCapitals(Ascii("mail from")) && NoCapitals(Ascii("rcpt to"))
  {
  }

  /** `MAIL FROM:<path>` is accepted exactly when the path is an address, and gives that address. */
  lemma MailFromReads(cmd: bytes, path: bytes)
    requires cmd != [] && COLON !in cmd && SameWord(Collapse(cmd, SPACE), Ascii("mail from"))
    ensures ParseMailFrom(cmd + [COLON] + (LEFT + path + RIGHT))
         == match EmailOf(path) case None => Bad(EmlFormat) case Some(a) => Good(a)
  {
    hide EmailOf, Bracketed, SameWord, Collapse, Ascii, NoCapitals;
    ArgumentWords();
    BracketedReads(cmd, path, Ascii("mail from"));
  }

  /** `RCPT TO:<route:address>`: the address is what follows the last colon. */
  lemma RcptToReads(cmd: bytes, route: bytes, email: bytes)
    requires cmd != [] && COLON !in cmd && SameWord(Collapse(cmd, SPACE), Ascii("rcpt to"))
    requires email != [] && COLON !in email && AtStart(route + email, COLON, |route|)
    ensures ParseRcptTo(cmd + [COLON] + (LEFT + (route + email) + RIGHT))
         == match EmailOf(email) case None => Bad(EmlFormat) case Some(a) => Good(a)
  {
    hide EmailOf, Bracketed, SameWord, Collapse, Ascii, NoCapitals;
    ArgumentWords();
    var path := route + email;
    BracketedReads(cmd, path, Ascii("rcpt to"));
    LastWord(route, email);
  }

  lemma LastWord(route: bytes, email: bytes)
    requires email != [] && COLON !in email && AtStart(route + email, COLON, |route|)
    ensures var ws := Words(route + email, COLON); ws != [] && ws[|ws| - 1] == email
  {
    hide Words;
    var path := route + email;
    assert path[|route|..|path|] == email && path[..|path|] == path;
    WordsRun(path, COLON, |route|, |path|);
  }

  lemma TwoWords(a: bytes, b: bytes, d: byte)
    requires d !in a && d !in b
    ensures Split(a + [d] + b, d) == [a, b]
    ensures Words(a + [d] + b, d) == (if a == [] then [] else [a]) + (if b == [] then [] else [b])
  {
    hide Split;
    SplitJoin([a, b], d);
    assert [a, b][..1] == [a];
    assert Join([a, b], d) == a + [d] + b;
    NonemptySnoc([], a);
    NonemptySnoc([a], b);
    assert [] + [a] == [a] && [a] + [b] == [a, b] && Nonempty([]) == [];
  }

  /** An address is a local part of 1 to 128 bytes and a qualified domain, with one `@` between them. */
  lemma AddressReads(localpart: bytes, domain: bytes)
    requires AT !in localpart && AT !in domain
    ensures EmailOf(localpart + [AT] + domain)
         == if 1 <= |localpart| <= 128 && DnsRoundTrip.IsFqdn(domain)
            then Some(EmailAddr(localpart + [AT] + domain, localpart, domain, true)) else None
  {
    hide Words, DnsRoundTrip.IsFqdn;
    TwoWords(localpart, domain, AT);
    EmptyIsNoDomain();
  }

  predicate OneAt(text: bytes) {
    exists i :: 0 <= i < |text| && text[i] == AT && AT !in text[..i] && AT !in text[i + 1..]
  }

  /** What is accepted as an address is its local part and its domain if and only if it has one `@`:
      whatever stands before a first or behind a second one is kept in the text and never looked at. */
  lemma AddressIsItsParts(email: bytes)
    requires EmailOf(email).Some?
    ensures var a := EmailOf(email).value; email == a.localpart + [AT] + a.domain <==> OneAt(email)
  {
    hide EmailOf, OneAt;
    var a := EmailOf(email).value;
    if email == a.localpart + [AT] + a.domain {
      PartsHaveNoAt(email);
      OneBetween(a.localpart, a.domain);
    }
    if OneAt(email) {
      var i := AtOf(email);
      AddressReads(email[..i], email[i + 1..]);
    }
  }

  lemma PartsHaveNoAt(email: bytes)
    requires EmailOf(email).Some?
    ensures var a := EmailOf(email).value; AT !in a.localpart && AT !in a.domain
  {
    hide Words, DnsRoundTrip.IsFqdn;
    EmptyIsNoDomain();
    WordHasNoDelimiter(email, AT, 0);
    WordHasNoDelimiter(email, AT, 1);
  }

  lemma OneBetween(a: bytes, b: bytes)
    requires AT !in a && AT !in b
    ensures OneAt(a + [AT] + b)
  {
    var s := a + [AT] + b;
    assert s[|a|] == AT && s[..|a|] == a && s[|a| + 1..] == b;
  }

  lemma AtOf(s: bytes) returns (i: nat)
    requires OneAt(s)
    ensures i < |s| && AT !in s[..i] && AT !in s[i + 1..] && s == s[..i] + [AT] + s[i + 1..]
  {
    i :| 0 <= i < |s| && s[i] == AT && AT !in s[..i] && AT !in s[i + 1..];
  }

  /** With a second `@` the text is more than its parts. */
  lemma SecondAtIsKept(localpart: bytes, domain: bytes, tail: bytes)
    requires AT !in localpart && AT !in domain && AT !in tail
    requires 1 <= |localpart| <= 128 && DnsRoundTrip.IsFqdn(domain)
    ensures var text := localpart + [AT] + domain + [AT] + tail;
            EmailOf(text) == Some(EmailAddr(text, localpart, domain, true))
  {
    hide Split, DnsRoundTrip.IsFqdn;
    var front := localpart + [AT] + domain;
    EmptyIsNoDomain();
    TwoWords(localpart, domain, AT);
    SplitConcat(front, tail, AT);
    NoSplit(tail, AT);
    NonemptySnoc([localpart, domain], tail);
    assert [localpart, domain] + [tail] == Split(front + [AT] + tail, AT);
  }

  lemma EmptyIsNoDomain()
    ensures !DnsRoundTrip.IsFqdn([])
  {
  }

  /** A greeting is a word of four bytes, a space, and an argument that no space follows: the argument,
      which may be empty, is taken.  One with another space behind its argument is refused. */
  lemma HeloReads(cmd: bytes, arg: bytes, tail: bytes)
    requires |cmd| == 4 && SPACE !in cmd && SPACE !in arg
    ensures ParseHelo(cmd + [SPACE] + arg) == Good(arg)
    ensures arg != [] ==> ParseHelo(cmd + [SPACE] + arg + [SPACE] + tail) == Bad(Syntax)
    ensures ParseHelo(cmd) == Bad(Unrecognized)
  {
    hide Split, Nonempty;
    TwoWords(cmd, arg, SPACE);
    KeptSnoc([cmd], arg, true);
    NonemptySnoc([], cmd);
    NoneNonempty();
    assert [cmd] + [arg] == [cmd, arg] && [] + [cmd] == [cmd];
    if arg != [] {
      ThreeKept(cmd, arg, tail);
    }
  }

  lemma NoneNonempty()
    ensures Nonempty([]) == []
  {
  }

  lemma ThreeKept(cmd: bytes, arg: bytes, tail: bytes)
    requires |cmd| == 4 && SPACE !in cmd && SPACE !in arg && arg != []
    ensures |Kept(Split(cmd + [SPACE] + arg + [SPACE] + tail, SPACE), true)| > 2
  {
    hide Split, Nonempty, Kept;
    var front := cmd + [SPACE] + arg;
    TwoWords(cmd, arg, SPACE);
    SplitConcat(front, tail, SPACE);
    var ls := Split(tail, SPACE);
    var init, last := ls[..|ls| - 1], ls[|ls| - 1];
    assert [cmd, arg] + ls == ([cmd, arg] + init) + [last];
    KeptSnoc([cmd, arg] + init, last, true);
    NonemptyGrows([cmd, arg], init);
    NonemptySnoc([], cmd);
    NonemptySnoc([cmd], arg);
    NoneNonempty();
    assert [] + [cmd] == [cmd] && [cmd] + [arg] == [cmd, arg];
  }

  lemma {:induction false} NonemptyGrows(a: seq<bytes>, b: seq<bytes>)
    ensures |Nonempty(a + b)| >= |Nonempty(a)|
    decreases |b|
  {
    if b == [] {
      assert a + b == a;
    } else {
      NonemptyGrows(a, b[..|b| - 1]);
      assert a + b == (a + b[..|b| - 1]) + [b[|b| - 1]];
      NonemptySnoc(a + b[..|b| - 1], b[|b| - 1]);
    }
  }
}
