/** The per-connection loop of the SMTP server. The socket is replaced by a
    sequence of receive events on the way in and a log of replies on the way
    out; the parser is reached through `_process_email`, and the user
    callback is a log of the messages it was handed. */
module SmtpServer {
  import opened Scanners
  import opened EmailParser

  /** The bytes of a string whose characters are all below 256. */
  function Ascii(s: string): (b: seq<byte>)
    requires forall i :: 0 <= i < |s| ==> s[i] as int < 256
    ensures |b| == |s| && forall i :: 0 <= i < |s| ==> b[i] as int == s[i] as int
  {
    seq(|s|, i requires 0 <= i < |s| => s[i] as int as byte)
  }

  const HeloCmd: seq<byte> := Ascii("HELO")
  const EhloCmd: seq<byte> := Ascii("EHLO")
  const MailCmd: seq<byte> := Ascii("MAIL FROM")
  const RcptCmd: seq<byte> := Ascii("RCPT TO")
  const DataCmd: seq<byte> := Ascii("DATA")
  const QuitCmd: seq<byte> := Ascii("QUIT")

  /** The end-of-data marker `<CRLF>.<CRLF>`. */
  const Terminator: seq<byte> := Ascii("\r\n.\r\n")

  /** The fixed replies the server sends. */
  datatype Reply = Greeting | Hello | Ok | DataPrompt | Accepted | Bye

  /** The text after the code. */
  function Phrase(r: Reply): string {
    match r
    case Greeting => "mail.example.com SMTP SimpleServer"
    case Hello => "Hello"
    case Ok => "OK"
    case DataPrompt => "End with <CR><LF>.<CR><LF>"
    case Accepted => "Message accepted"
    case Bye => "Bye"
  }

  /** The line sent for a reply: `220 mail.example.com SMTP SimpleServer`,
      `250 Hello`, `250 OK`, `354 End with <CR><LF>.<CR><LF>`,
      `250 Message accepted` and `221 Bye`, each ended by CRLF. */
  function Text(r: Reply): string {
    Digits(Code(r)) + " " + Phrase(r) + "\r\n"
  }

  /** The reply code of a reply. */
  function Code(r: Reply): (c: nat)
    ensures c == 220 || c == 250 || c == 354 || c == 221
  {
    match r
    case Greeting => 220
    case Hello => 250
    case Ok => 250
    case DataPrompt => 354
    case Accepted => 250
    case Bye => 221
  }

  /** The decimal digits of a three-digit number. */
  function Digits(n: nat): (t: string)
    requires n < 1000
    ensures |t| == 3 && forall i :: 0 <= i < 3 ==> '0' <= t[i] <= '9'
  {
    [(48 + n / 100) as char, (48 + n / 10 % 10) as char, (48 + n % 10) as char]
  }

  /** `t` opens with the three digits of `c` and a space, and ends with a
      line break. */
  predicate ReplyLine(t: string, c: nat)
    requires c < 1000
  {
    |t| > 6 && t[..3] == Digits(c) && t[3] == ' ' && t[|t| - 2] == '\r' && t[|t| - 1] == '\n'
  }

  /** Each reply is a line with its code; only the greeting has code 220,
      and only the `QUIT` reply has 221. */
  lemma ReplyShape(r: Reply)
    ensures ReplyLine(Text(r), Code(r))
    ensures Code(r) == 220 <==> r == Greeting
    ensures Code(r) == 221 <==> r == Bye
  {
    var t := Text(r);
    assert t[..3] == Digits(Code(r));
  }

  // Each reply is exactly the line `_handle_client` sends for it; the
  // `...Line` lemmas only spell out the literal concatenation.

  /** A reply line assembled from its code, a space, its phrase and CRLF. */
  lemma Assembled(r: Reply, digits: string)
    requires digits == Digits(Code(r))
    ensures Text(r) == digits + " " + Phrase(r) + "\r\n"
  {
  }

  lemma GreetingText()
    ensures Text(Greeting) == "220 mail.example.com SMTP SimpleServer\r\n"
  {
    Assembled(Greeting, "220");
    GreetingLine();
  }

  lemma GreetingLine()
    ensures "220" + " " + "mail.example.com SMTP SimpleServer" + "\r\n" == "220 mail.example.com SMTP SimpleServer\r\n"
  {
  }

  lemma HelloText()
    ensures Text(Hello) == "250 Hello\r\n"
  {
    Assembled(Hello, "250");
    HelloLine();
  }

  lemma HelloLine()
    ensures "250" + " " + "Hello" + "\r\n" == "250 Hello\r\n"
  {
  }

  lemma OkText()
    ensures Text(Ok) == "250 OK\r\n"
  {
    Assembled(Ok, "250");
    OkLine();
  }

  lemma OkLine()
    ensures "250" + " " + "OK" + "\r\n" == "250 OK\r\n"
  {
  }

  lemma DataPromptText()
    ensures Text(DataPrompt) == "354 End with <CR><LF>.<CR><LF>\r\n"
  {
    Assembled(DataPrompt, "354");
    DataPromptLine();
  }

  lemma DataPromptLine()
    ensures "354" + " " + "End with <CR><LF>.<CR><LF>" + "\r\n" == "354 End with <CR><LF>.<CR><LF>\r\n"
  {
  }

  lemma AcceptedText()
    ensures Text(Accepted) == "250 Message accepted\r\n"
  {
    Assembled(Accepted, "250");
    AcceptedLine();
  }

  lemma AcceptedLine()
    ensures "250" + " " + "Message accepted" + "\r\n" == "250 Message accepted\r\n"
  {
  }

  lemma ByeText()
    ensures Text(Bye) == "221 Bye\r\n"
  {
    Assembled(Bye, "221");
    ByeLine();
  }

  lemma ByeLine()
    ensures "221" + " " + "Bye" + "\r\n" == "221 Bye\r\n"
  {
  }

  /** The branches of the dispatch, in the order they are tried. */
  datatype Branch = Helo | MailFrom | RcptTo | Data | EndOfData | Quit | Other

  function Rank(b: Branch): nat {
    match b
    case Helo => 0
    case MailFrom => 1
    case RcptTo => 2
    case Data => 3
    case EndOfData => 4
    case Quit => 5
    case Other => 6
  }

  /** The test guarding branch `b` holds for `chunk`. */
  predicate Fires(chunk: seq<byte>, b: Branch) {
    match b
    case Helo => StartsWith(chunk, HeloCmd) || StartsWith(chunk, EhloCmd)
    case MailFrom => StartsWith(chunk, MailCmd)
    case RcptTo => StartsWith(chunk, RcptCmd)
    case Data => StartsWith(chunk, DataCmd)
    case EndOfData => Contains(chunk, Terminator)
    case Quit => StartsWith(chunk, QuitCmd)
    case Other => true
  }

  /** The branch a received chunk takes: the first one, in order, whose test
      holds. Only the current chunk is examined, never the buffer. */
  function Dispatch(chunk: seq<byte>): (b: Branch)
    ensures Fires(chunk, b)
    ensures forall b' :: Rank(b') < Rank(b) ==> !Fires(chunk, b')
  {
    if StartsWith(chunk, HeloCmd) || StartsWith(chunk, EhloCmd) then Helo
    else if StartsWith(chunk, MailCmd) then MailFrom
    else if StartsWith(chunk, RcptCmd) then RcptTo
    else if StartsWith(chunk, DataCmd) then Data
    else if Contains(chunk, Terminator) then EndOfData
    else if StartsWith(chunk, QuitCmd) then Quit
    else Other
  }

  /** The branch taken is the only one that is the first to fire. */
  lemma DispatchIsFirstFiring(chunk: seq<byte>, b: Branch)
    ensures b == Dispatch(chunk) <==>
              Fires(chunk, b) && forall b' :: Rank(b') < Rank(b) ==> !Fires(chunk, b')
  {
    var d := Dispatch(chunk);
    if Fires(chunk, b) && forall b' :: Rank(b') < Rank(b) ==> !Fires(chunk, b') {
      assert !(Rank(d) < Rank(b));
      assert !(Rank(b) < Rank(d));
    }
  }

  /** The reply each branch sends. */
  function ReplyTo(b: Branch): Reply {
    match b
    case Helo => Hello
    case MailFrom => Ok
    case RcptTo => Ok
    case Data => DataPrompt
    case EndOfData => Accepted
    case Quit => Bye
    case Other => Ok
  }

  /** What one call of `recv` gives: some bytes (none when the client has
      closed), or an error that ends the loop. */
  datatype Event = Received(data: seq<byte>) | Failed

  /** The state of one connection as the server sees it: the buffered bytes,
      whether the loop is still running, the replies sent so far, the
      buffers handed to the parser and the messages handed to the callback. */
  datatype SessionState = SessionState(
    buffer: seq<byte>, open: bool, replies: seq<Reply>,
    parsed: seq<seq<byte>>, delivered: seq<ParsedEmail>)

  /** The state when `_handle_client` has sent its greeting. */
  function Opened(st: SessionState): SessionState {
    SessionState([], true, st.replies + [Greeting], st.parsed, st.delivered)
  }

  /** `_process_email`: the buffer goes to the parser, and its result to the
      callback when there is one. */
  function Process(parse: seq<byte> -> ParsedEmail, hasCallback: bool,
                   st: SessionState, raw: seq<byte>): SessionState {
    st.(parsed := st.parsed + [raw],
        delivered := if hasCallback then st.delivered + [parse(raw)] else st.delivered)
  }

  /** The event does not end the loop. */
  predicate KeepsOpen(ev: Event) {
    ev.Received? && ev.data != [] && Dispatch(ev.data) != Quit
  }

  /** One iteration of the loop of `_handle_client`. It stops the loop on a
      failed read, an empty read or the `QUIT` branch, and on nothing else. */
  function Step(parse: seq<byte> -> ParsedEmail, hasCallback: bool,
                st: SessionState, ev: Event): (next: SessionState)
    requires st.open
    ensures next.open <==> KeepsOpen(ev)
  {
    match ev
    case Failed => st.(open := false)
    case Received(data) =>
      if data == [] then st.(open := false)
      else
        var buffer := st.buffer + data;
        var b := Dispatch(data);
        var sent := st.(buffer := buffer, replies := st.replies + [ReplyTo(b)]);
        if b == EndOfData then Process(parse, hasCallback, sent, buffer).(buffer := [])
        else if b == Quit then sent.(open := false)
        else sent
  }

  /** The loop of `_handle_client` over the events, up to the one that ends
      it: it is still running after them exactly when none of them ends it. */
  function Run(parse: seq<byte> -> ParsedEmail, hasCallback: bool,
               st: SessionState, events: seq<Event>): (r: SessionState)
    ensures st.open ==> (r.open <==> forall j :: 0 <= j < |events| ==> KeepsOpen(events[j]))
    decreases |events|
  {
    if !st.open || events == [] then st
    else
      assert forall j :: 1 <= j < |events| ==> events[j] == events[1..][j - 1];
      Run(parse, hasCallback, Step(parse, hasCallback, st, events[0]), events[1..])
  }

  /** The non-empty chunks the loop reads before it ends. */
  function Chunks(events: seq<Event>): (rcv: seq<seq<byte>>)
    ensures forall j :: 0 <= j < |rcv| ==> rcv[j] != []
    decreases |events|
  {
    if events == [] then []
    else
      match events[0]
      case Failed => []
      case Received(d) =>
        if d == [] then []
        else if Dispatch(d) == Quit then [d]
        else [d] + Chunks(events[1..])
  }

  /** The buffer grows by each chunk, and is emptied in the end-of-data
      branch; the parser is called only there, on the buffer that already
      holds the current chunk, and the reply is the branch's. */
  lemma StepBuffer(parse: seq<byte> -> ParsedEmail, hasCallback: bool,
                   st: SessionState, data: seq<byte>)
    requires st.open && data != []
    ensures var next := Step(parse, hasCallback, st, Received(data));
      next.replies == st.replies + [ReplyTo(Dispatch(data))]
      && (Dispatch(data) == EndOfData ==>
            next.buffer == [] && next.parsed == st.parsed + [st.buffer + data])
      && (Dispatch(data) != EndOfData ==>
            next.buffer == st.buffer + data && next.parsed == st.parsed
            && next.delivered == st.delivered)
  {
  }

  /** A chunk that starts with `DATA` gets the 354 reply and never reaches
      the parser, even when it holds the end-of-data marker. */
  lemma DataBeatsTerminator(parse: seq<byte> -> ParsedEmail, hasCallback: bool,
                            st: SessionState, data: seq<byte>)
    requires st.open && StartsWith(data, DataCmd)
    ensures Dispatch(data) == Data
    ensures var next := Step(parse, hasCallback, st, Received(data));
      next.replies == st.replies + [DataPrompt] && next.parsed == st.parsed && next.open
  {
    assert data[0] as int == 'D' as int by { assert data[..4][0] == DataCmd[0]; }
    assert !StartsWith(data, HeloCmd) by { assert HeloCmd[0] as int == 'H' as int; }
    assert !StartsWith(data, EhloCmd) by { assert EhloCmd[0] as int == 'E' as int; }
    assert !StartsWith(data, MailCmd) by { assert MailCmd[0] as int == 'M' as int; }
    assert !StartsWith(data, RcptCmd) by { assert RcptCmd[0] as int == 'R' as int; }
  }

  /** A chunk that starts with `QUIT` but holds the end-of-data marker is
      accepted as a message, and the session goes on. */
  lemma TerminatorBeatsQuit(parse: seq<byte> -> ParsedEmail, hasCallback: bool,
                            st: SessionState, data: seq<byte>)
    requires st.open && StartsWith(data, QuitCmd) && Contains(data, Terminator)
    ensures Dispatch(data) == EndOfData
    ensures var next := Step(parse, hasCallback, st, Received(data));
      next.replies == st.replies + [Accepted] && next.open
      && next.parsed == st.parsed + [st.buffer + data]
  {
    assert data[0] as int == 'Q' as int by { assert data[..4][0] == QuitCmd[0]; }
    assert !StartsWith(data, HeloCmd) by { assert HeloCmd[0] as int == 'H' as int; }
    assert !StartsWith(data, EhloCmd) by { assert EhloCmd[0] as int == 'E' as int; }
    assert !StartsWith(data, MailCmd) by { assert MailCmd[0] as int == 'M' as int; }
    assert !StartsWith(data, RcptCmd) by { assert RcptCmd[0] as int == 'R' as int; }
    assert !StartsWith(data, DataCmd) by { assert DataCmd[0] as int == 'D' as int; }
  }

  /** The concatenation of a sequence of byte strings. */
  function Flatten(xs: seq<seq<byte>>): seq<byte>
    decreases |xs|
  {
    if xs == [] then [] else Flatten(xs[..|xs| - 1]) + xs[|xs| - 1]
  }

  /** The replies due to a sequence of chunks, one each. */
  function Replies(rcv: seq<seq<byte>>): (r: seq<Reply>)
    ensures |r| == |rcv| && forall j :: 0 <= j < |rcv| ==> r[j] == ReplyTo(Dispatch(rcv[j]))
  {
    seq(|rcv|, j requires 0 <= j < |rcv| => ReplyTo(Dispatch(rcv[j])))
  }

  /** How many of the chunks take the end-of-data branch. */
  function Terminated(rcv: seq<seq<byte>>): nat
    decreases |rcv|
  {
    if rcv == [] then 0
    else Terminated(rcv[..|rcv| - 1]) + (if Dispatch(rcv[|rcv| - 1]) == EndOfData then 1 else 0)
  }

  /** The parser's results for the given buffers, in order. */
  function ParsedAll(parse: seq<byte> -> ParsedEmail, ms: seq<seq<byte>>): (r: seq<ParsedEmail>)
    ensures |r| == |ms| && forall j :: 0 <= j < |ms| ==> r[j] == parse(ms[j])
  {
    seq(|ms|, j requires 0 <= j < |ms| => parse(ms[j]))
  }

  /** The buffers a session that started from `st0` has handed to the parser. */
  function Handed(st0: SessionState, st: SessionState): seq<seq<byte>>
    requires |st0.parsed| <= |st.parsed|
  {
    st.parsed[|st0.parsed|..]
  }

  /** The greeting, then one reply per chunk read. */
  ghost predicate RepliesAccount(st0: SessionState, st: SessionState, rcv: seq<seq<byte>>) {
    st.replies == st0.replies + [Greeting] + Replies(rcv)
  }

  /** Every byte read is in one of the buffers handed to the parser, in
      order, or still in the buffer. */
  ghost predicate BytesAccount(st0: SessionState, st: SessionState, rcv: seq<seq<byte>>) {
    |st0.parsed| <= |st.parsed| && Flatten(Handed(st0, st)) + st.buffer == Flatten(rcv)
  }

  /** The parser was called once per end-of-data chunk, each time on a
      buffer holding the marker. */
  ghost predicate ParseAccount(st0: SessionState, st: SessionState, rcv: seq<seq<byte>>) {
    |st0.parsed| <= |st.parsed| && |Handed(st0, st)| == Terminated(rcv)
    && forall j :: 0 <= j < |Handed(st0, st)| ==> Contains(Handed(st0, st)[j], Terminator)
  }

  /** The callback, when there is one, got the parser's result for each
      buffer handed to the parser, and nothing else. */
  ghost predicate DeliveryAccount(parse: seq<byte> -> ParsedEmail, hasCallback: bool,
                                  st0: SessionState, st: SessionState) {
    |st0.parsed| <= |st.parsed|
    && st.delivered == st0.delivered + (if hasCallback then ParsedAll(parse, Handed(st0, st)) else [])
  }

  /** The loop still runs only if no chunk took the `QUIT` branch. */
  ghost predicate OpenAccount(st: SessionState, rcv: seq<seq<byte>>) {
    st.open ==> forall j :: 0 <= j < |rcv| ==> Dispatch(rcv[j]) != Quit
  }

  /** What a session that started from `st0` has done once it has read the
      chunks `rcv`. */
  ghost predicate Accounts(parse: seq<byte> -> ParsedEmail, hasCallback: bool,
                           st0: SessionState, st: SessionState, rcv: seq<seq<byte>>)
  {
    RepliesAccount(st0, st, rcv) && BytesAccount(st0, st, rcv) && ParseAccount(st0, st, rcv)
    && DeliveryAccount(parse, hasCallback, st0, st) && OpenAccount(st, rcv)
  }

  /** A buffer that ends with a chunk holding the marker holds it too. */
  lemma ContainsInSuffix(a: seq<byte>, b: seq<byte>)
    requires Contains(b, Terminator)
    ensures Contains(a + b, Terminator)
  {
    var k :| 0 <= k <= |b| - |Terminator| && OccursAt(b, Terminator, k);
    assert (a + b)[|a| + k..|a| + k + |Terminator|] == b[k..k + |Terminator|];
    assert OccursAt(a + b, Terminator, |a| + k);
  }

  /** One more chunk adds its reply. */
  lemma RepliesAppend(rcv: seq<seq<byte>>, d: seq<byte>)
    ensures Replies(rcv + [d]) == Replies(rcv) + [ReplyTo(Dispatch(d))]
  {
  }

  /** One more piece adds its bytes. */
  lemma FlattenAppend(xs: seq<seq<byte>>, d: seq<byte>)
    ensures Flatten(xs + [d]) == Flatten(xs) + d
  {
    assert (xs + [d])[..|xs|] == xs;
  }

  /** One more end-of-data chunk adds a count. */
  lemma TerminatedAppend(rcv: seq<seq<byte>>, d: seq<byte>)
    ensures Terminated(rcv + [d]) == Terminated(rcv) + (if Dispatch(d) == EndOfData then 1 else 0)
  {
    assert (rcv + [d])[..|rcv|] == rcv;
  }

  /** One more buffer adds its parse. */
  lemma ParsedAllAppend(parse: seq<byte> -> ParsedEmail, ms: seq<seq<byte>>, m: seq<byte>)
    ensures ParsedAll(parse, ms + [m]) == ParsedAll(parse, ms) + [parse(m)]
  {
  }

  /** How one step that reads the chunk `d` changes the state: one reply; in
      the end-of-data branch the buffer with `d` goes to the parser (and its
      result to the callback) and the buffer empties; otherwise `d` joins the
      buffer. */
  ghost predicate ReadStep(parse: seq<byte> -> ParsedEmail, hasCallback: bool,
                           st: SessionState, d: seq<byte>, next: SessionState)
  {
    var m := st.buffer + d;
    next.replies == st.replies + [ReplyTo(Dispatch(d))]
    && (next.open ==> st.open && Dispatch(d) != Quit)
    && (Dispatch(d) == EndOfData ==>
          next.buffer == [] && next.parsed == st.parsed + [m]
          && next.delivered == (if hasCallback then st.delivered + [parse(m)] else st.delivered))
    && (Dispatch(d) != EndOfData ==>
          next.buffer == m && next.parsed == st.parsed && next.delivered == st.delivered)
  }

  lemma RepliesStep(parse: seq<byte> -> ParsedEmail, hasCallback: bool, st0: SessionState,
                    st: SessionState, rcv: seq<seq<byte>>, d: seq<byte>, next: SessionState)
    requires RepliesAccount(st0, st, rcv) && ReadStep(parse, hasCallback, st, d, next)
    ensures RepliesAccount(st0, next, rcv + [d])
  {
    RepliesAppend(rcv, d);
  }

  lemma BytesStep(parse: seq<byte> -> ParsedEmail, hasCallback: bool, st0: SessionState,
                  st: SessionState, rcv: seq<seq<byte>>, d: seq<byte>, next: SessionState)
    requires BytesAccount(st0, st, rcv) && ReadStep(parse, hasCallback, st, d, next)
    ensures BytesAccount(st0, next, rcv + [d])
  {
    FlattenAppend(rcv, d);
    var before := Flatten(Handed(st0, st));
    assert before + st.buffer == Flatten(rcv);
    assert before + (st.buffer + d) == Flatten(rcv) + d;
    if Dispatch(d) == EndOfData {
      assert Handed(st0, next) == Handed(st0, st) + [st.buffer + d];
      FlattenAppend(Handed(st0, st), st.buffer + d);
      assert next.buffer == [];
    } else {
      assert Handed(st0, next) == Handed(st0, st);
      assert next.buffer == st.buffer + d;
    }
  }

  lemma ParseStep(parse: seq<byte> -> ParsedEmail, hasCallback: bool, st0: SessionState,
                  st: SessionState, rcv: seq<seq<byte>>, d: seq<byte>, next: SessionState)
    requires ParseAccount(st0, st, rcv) && ReadStep(parse, hasCallback, st, d, next)
    ensures ParseAccount(st0, next, rcv + [d])
  {
    TerminatedAppend(rcv, d);
    var ms := Handed(st0, st);
    if Dispatch(d) == EndOfData {
      var m := st.buffer + d;
      assert Handed(st0, next) == ms + [m];
      ContainsInSuffix(st.buffer, d);
      forall j | 0 <= j < |ms + [m]| ensures Contains((ms + [m])[j], Terminator) {
        if j < |ms| { assert (ms + [m])[j] == ms[j]; }
      }
    } else {
      assert Handed(st0, next) == ms;
    }
  }

  lemma DeliveryStep(parse: seq<byte> -> ParsedEmail, hasCallback: bool, st0: SessionState,
                     st: SessionState, rcv: seq<seq<byte>>, d: seq<byte>, next: SessionState)
    requires DeliveryAccount(parse, hasCallback, st0, st) && ReadStep(parse, hasCallback, st, d, next)
    ensures DeliveryAccount(parse, hasCallback, st0, next)
  {
    if Dispatch(d) == EndOfData {
      assert Handed(st0, next) == Handed(st0, st) + [st.buffer + d];
      ParsedAllAppend(parse, Handed(st0, st), st.buffer + d);
    } else {
      assert Handed(st0, next) == Handed(st0, st);
    }
  }

  lemma OpenStep(parse: seq<byte> -> ParsedEmail, hasCallback: bool,
                 st: SessionState, rcv: seq<seq<byte>>, d: seq<byte>, next: SessionState)
    requires OpenAccount(st, rcv) && ReadStep(parse, hasCallback, st, d, next)
    ensures OpenAccount(next, rcv + [d])
  {
    if next.open {
      assert forall j :: 0 <= j < |rcv| ==> (rcv + [d])[j] == rcv[j];
    }
  }

  /** A step that reads a chunk is a `ReadStep`. */
  lemma StepReads(parse: seq<byte> -> ParsedEmail, hasCallback: bool,
                  st: SessionState, d: seq<byte>)
    requires st.open && d != []
    ensures ReadStep(parse, hasCallback, st, d, Step(parse, hasCallback, st, Received(d)))
  {
  }

  /** Each step keeps the account, adding its chunk when it reads one. */
  lemma StepAccounts(parse: seq<byte> -> ParsedEmail, hasCallback: bool,
                     st0: SessionState, st: SessionState, rcv: seq<seq<byte>>, ev: Event)
    requires st.open && Accounts(parse, hasCallback, st0, st, rcv)
    ensures ev.Received? && ev.data != [] ==>
              Accounts(parse, hasCallback, st0, Step(parse, hasCallback, st, ev), rcv + [ev.data])
    ensures !(ev.Received? && ev.data != []) ==>
              Accounts(parse, hasCallback, st0, Step(parse, hasCallback, st, ev), rcv)
  {
    var next := Step(parse, hasCallback, st, ev);
    if ev.Received? && ev.data != [] {
      var d := ev.data;
      StepReads(parse, hasCallback, st, d);
      RepliesStep(parse, hasCallback, st0, st, rcv, d, next);
      BytesStep(parse, hasCallback, st0, st, rcv, d, next);
      ParseStep(parse, hasCallback, st0, st, rcv, d, next);
      DeliveryStep(parse, hasCallback, st0, st, rcv, d, next);
      OpenStep(parse, hasCallback, st, rcv, d, next);
    } else {
      assert next == st.(open := false);
      assert Handed(st0, next) == Handed(st0, st);
    }
  }

  /** Running the loop keeps the account, over the chunks it reads. */
  lemma {:induction false} RunAccounts(parse: seq<byte> -> ParsedEmail, hasCallback: bool,
                                       st0: SessionState, st: SessionState,
                                       rcv: seq<seq<byte>>, events: seq<Event>)
    requires st.open && Accounts(parse, hasCallback, st0, st, rcv)
    ensures Accounts(parse, hasCallback, st0, Run(parse, hasCallback, st, events), rcv + Chunks(events))
    decreases |events|
  {
    if events == [] {
      assert rcv + [] == rcv;
    } else {
      var ev := events[0];
      var next := Step(parse, hasCallback, st, ev);
      StepAccounts(parse, hasCallback, st0, st, rcv, ev);
      if next.open {
        var d := ev.data;
        RunAccounts(parse, hasCallback, st0, next, rcv + [d], events[1..]);
        assert rcv + [d] + Chunks(events[1..]) == rcv + Chunks(events);
      } else if ev.Received? && ev.data != [] {
        assert Chunks(events) == [ev.data];
      } else {
        assert Chunks(events) == [];
        assert rcv + [] == rcv;
      }
    }
  }

  /** The account of a whole connection: from the greeting to the event
      that ends it, or to the last event. */
  lemma SessionAccounts(parse: seq<byte> -> ParsedEmail, hasCallback: bool,
                        st0: SessionState, events: seq<Event>)
    ensures Accounts(parse, hasCallback, st0, Run(parse, hasCallback, Opened(st0), events), Chunks(events))
  {
    var st := Opened(st0);
    assert st.parsed[|st0.parsed|..] == [];
    assert Replies([]) == [];
    assert Accounts(parse, hasCallback, st0, st, []);
    RunAccounts(parse, hasCallback, st0, st, [], events);
    assert [] + Chunks(events) == Chunks(events);
  }

  /** A marker split over two chunks is never seen: when neither chunk
      holds it and the first is no `QUIT`, both chunks stay in the buffer,
      each gets its branch's reply and the parser is not called, whatever
      the two hold together. */
  lemma SplitChunksBuffered(parse: seq<byte> -> ParsedEmail, hasCallback: bool,
                            st: SessionState, a: seq<byte>, b: seq<byte>)
    requires st.open && a != [] && b != [] && Dispatch(a) != Quit
    requires !Contains(a, Terminator) && !Contains(b, Terminator)
    ensures var r := Run(parse, hasCallback, st, [Received(a), Received(b)]);
      r.parsed == st.parsed && r.delivered == st.delivered && r.buffer == st.buffer + a + b
      && r.replies == st.replies + [ReplyTo(Dispatch(a)), ReplyTo(Dispatch(b))]
  {
    StepBuffer(parse, hasCallback, st, a);
    var st1 := Step(parse, hasCallback, st, Received(a));
    StepBuffer(parse, hasCallback, st1, b);
    var st2 := Step(parse, hasCallback, st1, Received(b));
    assert [Received(a), Received(b)][1..] == [Received(b)];
    assert Run(parse, hasCallback, st1, [Received(b)]) == Run(parse, hasCallback, st2, []);
  }

  /** For instance `hi\r\n` then `.\r\n` leaves the whole message, marker
      and all, in the buffer and calls no parser. */
  lemma SplitTerminatorUnseen(parse: seq<byte> -> ParsedEmail, hasCallback: bool, st0: SessionState)
    ensures var a := Ascii("hi\r\n");
      var b := Ascii(".\r\n");
      var st := Run(parse, hasCallback, Opened(st0), [Received(a), Received(b)]);
      st.parsed == st0.parsed && st.buffer == a + b && Contains(st.buffer, Terminator)
      && st.replies == st0.replies + [Greeting, Ok, Ok] && st.open
  {
    var a := Ascii("hi\r\n");
    var b := Ascii(".\r\n");
    assert !StartsWith(a, HeloCmd) && !StartsWith(a, EhloCmd) by { assert a[0] != HeloCmd[0] && a[0] != EhloCmd[0]; }
    assert !StartsWith(a, QuitCmd) && !StartsWith(a, DataCmd) by { assert a[0] != QuitCmd[0] && a[0] != DataCmd[0]; }
    assert Dispatch(a) == Other;
    assert Dispatch(b) == Other;
    SplitChunksBuffered(parse, hasCallback, Opened(st0), a, b);
    assert [Received(a), Received(b)][1] == Received(b);
    assert OccursAt(a + b, Terminator, 2);
  }

  /** The parser as the server calls it: decoding, then parsing. */
  function Parser(decode: seq<byte> -> string): seq<byte> -> ParsedEmail {
    raw => MessageOf(decode(raw))
  }

  /** A server, reduced to what a connection changes: the socket's reply
      log, the buffer and running flag of the loop in `_handle_client`, the
      buffers handed to the parser and the messages handed to the callback. */
  class Server {
    /** UTF-8 decoding that drops invalid sequences. */
    const decode: seq<byte> -> string
    /** Whether a callback was given. */
    const hasCallback: bool
    var buffer: seq<byte>
    var open: bool
    var replies: seq<Reply>
    var parsed: seq<seq<byte>>
    var delivered: seq<ParsedEmail>

    function State(): SessionState
      reads this
    {
      SessionState(buffer, open, replies, parsed, delivered)
    }

    /** `__init__`: no connection yet. */
    constructor (decode: seq<byte> -> string, hasCallback: bool)
      ensures this.decode == decode && this.hasCallback == hasCallback
      ensures State() == SessionState([], false, [], [], [])
    {
      this.decode := decode;
      this.hasCallback := hasCallback;
      buffer := [];
      open := false;
      replies := [];
      parsed := [];
      delivered := [];
    }

    /** `_process_email`: parse the buffer and hand the result to the callback. */
    method ProcessEmail(rawEmail: seq<byte>)
      modifies this
      ensures State() == Process(Parser(decode), hasCallback, old(State()), rawEmail)
    {
      var parsedEmail := Parse(rawEmail, decode);
      assert Parser(decode)(rawEmail) == parsedEmail;
      parsed := parsed + [rawEmail];
      if hasCallback {
        delivered := delivered + [parsedEmail];
      }
    }

    /** `_handle_client`: greet, then read and answer chunks until a read
      fails or comes back empty, or the client quits. */
    method HandleClient(events: seq<Event>)
      modifies this
      ensures State() == Run(Parser(decode), hasCallback, Opened(old(State())), events)
      ensures Accounts(Parser(decode), hasCallback, old(State()), State(), Chunks(events))
    {
      ghost var st0 := State();
      replies := replies + [Greeting];
      buffer := [];
      open := true;
      var i := 0;
      while i < |events| && open
        invariant 0 <= i <= |events|
        invariant Run(Parser(decode), hasCallback, State(), events[i..])
               == Run(Parser(decode), hasCallback, Opened(st0), events)
        decreases |events| - i
      {
        ghost var before := State();
        match events[i] {
          case Failed =>
            open := false;
          case Received(data) =>
            if data == [] {
              open := false;
            } else {
              buffer := buffer + data;
              if StartsWith(data, HeloCmd) || StartsWith(data, EhloCmd) {
                replies := replies + [Hello];
              } else if StartsWith(data, MailCmd) {
                replies := replies + [Ok];
              } else if StartsWith(data, RcptCmd) {
                replies := replies + [Ok];
              } else if StartsWith(data, DataCmd) {
                replies := replies + [DataPrompt];
              } else if Contains(data, Terminator) {
                ProcessEmail(buffer);
                replies := replies + [Accepted];
                buffer := [];
              } else if StartsWith(data, QuitCmd) {
                replies := replies + [Bye];
                open := false;
              } else {
                replies := replies + [Ok];
              }
            }
        }
        assert State() == Step(Parser(decode), hasCallback, before, events[i]);
        assert events[i..][1..] == events[i + 1..];
        i := i + 1;
      }
      assert Run(Parser(decode), hasCallback, State(), events[i..]) == State();
      SessionAccounts(Parser(decode), hasCallback, st0, events);
    }
  }
}
