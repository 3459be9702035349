/**
 The terminal half of the YouTube login: pasted redirect URLs and codes race
 the loopback callback for one authorization-code exchange.
 */
module PasteAuth {
  import opened Lines
  import opened Text
  import opened Wrappers

  // ----------------------------------------------------------------- parsing

  datatype PasteError = Unparseable | StateMismatch
  datatype Parsed = Code(code: string) | Rejected(error: PasteError)

  /** The code and state parameters of a URL; None when it does not parse. */
  datatype Query = Query(code: string, state: string)
  type UrlParser = string -> Option<Query>

  function TrimQuotes(s: string): string
    decreases |s|
  {
    if s != "" && s[0] in "\"'" then TrimQuotes(s[1..])
    else if s != "" && s[|s| - 1] in "\"'" then TrimQuotes(s[..|s| - 1])
    else s
  }

  function Trimmed(input: string): string {
    TrimSpace(TrimQuotes(TrimSpace(input)))
  }

  predicate IsUrlForm(input: string) {
    Contains(Trimmed(input), "://")
  }

  function ParsePastedAuthCode(input: string, wantState: string, parseUrl: UrlParser): Parsed {
    var trimmed := Trimmed(input);
    if trimmed == "" then Rejected(Unparseable)
    else if Contains(trimmed, "://") then
      match parseUrl(trimmed)
      case None => Rejected(Unparseable)
      case Some(q) =>
        if q.code == "" then Rejected(Unparseable)
        else if q.state != wantState then Rejected(StateMismatch)
        else Code(q.code)
    else if exists c :: c in trimmed && c in " \t\r\n" then Rejected(Unparseable)
    else if ByteLength(trimmed) < 16 then Rejected(Unparseable)
    else Code(trimmed)
  }

  predicate AreQuotes(s: string) {
    forall c :: c in s ==> c in "\"'"
  }

  predicate IsCoreChar(c: char) {
    !IsSpace(c) && c !in "\"'"
  }

  /** Space around a paste, and quotation marks inside the space, do not count. */
  lemma WrappedPaste(before: string, open: string, text: string, close: string, after: string)
    requires AreSpaces(before) && AreQuotes(open) && AreQuotes(close) && AreSpaces(after)
    requires text != "" && IsCoreChar(text[0]) && IsCoreChar(text[|text| - 1])
    ensures Trimmed(before + (open + text + close) + after) == text
  {
    var inner := open + text + close;
    assert !IsSpace('"') && !IsSpace('\'');
    assert inner[0] == if open == "" then text[0] else open[0];
    assert inner[|inner| - 1] == if close == "" then text[|text| - 1] else close[|close| - 1];
    assert (open != "" ==> open[0] in open) && (close != "" ==> close[|close| - 1] in close);
    TrimExact(before, inner, after);
    TrimQuotesOf(open, text, close);
    TrimExact("", text, "");
    assert "" + text + "" == text;
  }

  lemma {:induction false} TrimQuotesOf(open: string, text: string, close: string)
    requires AreQuotes(open) && AreQuotes(close)
    requires text != "" && IsCoreChar(text[0]) && IsCoreChar(text[|text| - 1])
    ensures TrimQuotes(open + text + close) == text
    decreases |open| + |close|
  {
    var s := open + text + close;
    if open != "" {
      assert s[1..] == open[1..] + text + close;
      TrimQuotesOf(open[1..], text, close);
    } else if close != "" {
      assert s[..|s| - 1] == open + text + close[..|close| - 1];
      TrimQuotesOf(open, text, close[..|close| - 1]);
      assert s[0] == text[0];
    } else {
      assert s == text;
    }
  }

  /**
   What a line is good for: a URL for the code it carries beside the generated
   state, and any other text, without a blank and of at least 16 bytes, for itself.
   */
  predicate IsAcceptable(input: string, wantState: string, parseUrl: UrlParser, code: string) {
    if IsUrlForm(input) then code != "" && parseUrl(Trimmed(input)) == Some(Query(code, wantState))
    else
      && code == Trimmed(input) && ByteLength(code) >= 16
      && ' ' !in code && '\t' !in code && '\r' !in code && '\n' !in code
  }

  /** Exactly such codes are accepted; the state is blamed exactly for a URL with a code and another state. */
  lemma AcceptedCodes(input: string, wantState: string, parseUrl: UrlParser)
    ensures forall code :: ParsePastedAuthCode(input, wantState, parseUrl) == Code(code) <==>
                           IsAcceptable(input, wantState, parseUrl, code)
    ensures ParsePastedAuthCode(input, wantState, parseUrl) == Rejected(StateMismatch) <==>
              IsUrlForm(input) && parseUrl(Trimmed(input)).Some? && parseUrl(Trimmed(input)).value.code != "" &&
                parseUrl(Trimmed(input)).value.state != wantState
  {
    NothingContainsNothing();
  }

  lemma NothingContainsNothing()
    ensures !Contains("", "://") && ByteLength("") == 0
  {
  }

  // ------------------------------------------------------------------ reader

  /** An accepted code, or a rejection with the number of bad pastes so far. */
  datatype PasteEvent = Accepted(code: string) | BadPaste(error: PasteError, bad: nat)

  /** The events the reader sends for its input after `bad` bad pastes. */
  function EventsOf(lines: seq<string>, wantState: string, parseUrl: UrlParser, bad: nat): seq<PasteEvent> {
    if lines == [] then []
    else
      match ParsePastedAuthCode(lines[0], wantState, parseUrl)
      case Code(code) => [Accepted(code)]
      case Rejected(error) =>
        [BadPaste(error, bad + 1)] + if bad + 1 >= 3 then [] else EventsOf(lines[1..], wantState, parseUrl, bad + 1)
  }

  /** The reader's loop; `out` is what it puts on the channel. */
  method PasteAcceptLoop(lines: seq<string>, wantState: string, parseUrl: UrlParser) returns (out: seq<PasteEvent>)
    ensures out == EventsOf(lines, wantState, parseUrl, 0)
  {
    hide ParsePastedAuthCode, EventsOf;
    out := [];
    var bad: nat := 0;
    assert lines[0..] == lines;
    for i := 0 to |lines|
      invariant bad < 3
      invariant EventsOf(lines, wantState, parseUrl, 0) == out + EventsOf(lines[i..], wantState, parseUrl, bad)
    {
      EventsUnfolded(lines, i, wantState, parseUrl, bad);
      match ParsePastedAuthCode(lines[i], wantState, parseUrl)
      case Rejected(error) =>
        bad := bad + 1;
        out := out + [BadPaste(error, bad)];
        if bad >= 3 {
          return;
        }
      case Code(code) =>
        out := out + [Accepted(code)];
        return;
    }
    NoEvents(wantState, parseUrl, bad);
    assert lines[|lines|..] == [] && out + [] == out;
  }

  lemma NoEvents(wantState: string, parseUrl: UrlParser, bad: nat)
    ensures EventsOf([], wantState, parseUrl, bad) == []
  {
  }

  lemma EventsUnfolded(lines: seq<string>, i: nat, wantState: string, parseUrl: UrlParser, bad: nat)
    requires i < |lines|
    ensures EventsOf(lines[i..], wantState, parseUrl, bad) ==
            match ParsePastedAuthCode(lines[i], wantState, parseUrl)
            case Code(code) => [Accepted(code)]
            case Rejected(error) =>
              [BadPaste(error, bad + 1)] +
              if bad + 1 >= 3 then [] else EventsOf(lines[i + 1..], wantState, parseUrl, bad + 1)
  {
    hide ParsePastedAuthCode;
    assert lines[i..][1..] == lines[i + 1..];
  }

  /**
   At most three events: rejections numbered from one, of which the third is
   the last, or rejections followed by one accepted code that some line parses to.
   */
  lemma {:induction false} EventsShape(lines: seq<string>, wantState: string, parseUrl: UrlParser, bad: nat)
    requires bad < 3
    ensures var events := EventsOf(lines, wantState, parseUrl, bad);
            && |events| <= 3 - bad
            && (forall i :: 0 <= i < |events| ==>
                  match events[i]
                  case BadPaste(_, n) => n == bad + 1 + i
                  case Accepted(code) =>
                    i == |events| - 1 &&
                    exists line :: line in lines && ParsePastedAuthCode(line, wantState, parseUrl) == Code(code))
            && (forall i :: 0 <= i < |events| && events[i].BadPaste? ==>
                  i < |lines| && ParsePastedAuthCode(lines[i], wantState, parseUrl) == Rejected(events[i].error))
  {
    hide ParsePastedAuthCode;
    if lines == [] {
      NoEvents(wantState, parseUrl, bad);
    } else {
      var rest := EventsOf(lines[1..], wantState, parseUrl, bad + 1);
      EventsUnfolded(lines, 0, wantState, parseUrl, bad);
      hide EventsOf;
      assert lines[0..] == lines && lines[0] in lines;
      if bad + 1 < 3 {
        EventsShape(lines[1..], wantState, parseUrl, bad + 1);
      }
    }
  }

  /** If one of the three first lines is acceptable, the events end with the code of the first such line. */
  lemma {:induction false} FirstAcceptable(lines: seq<string>, wantState: string, parseUrl: UrlParser, bad: nat, i: nat,
      code: string)
    requires bad + i < 3 && i < |lines| && IsAcceptable(lines[i], wantState, parseUrl, code)
    requires forall k, other :: 0 <= k < i ==> !IsAcceptable(lines[k], wantState, parseUrl, other)
    ensures var events := EventsOf(lines, wantState, parseUrl, bad);
            && |events| == i + 1 && events[i] == Accepted(code)
            && forall k :: 0 <= k < i ==> events[k].BadPaste?
  {
    hide ParsePastedAuthCode, IsAcceptable, EventsOf;
    AcceptedCodes(lines[0], wantState, parseUrl);
    EventsUnfolded(lines, 0, wantState, parseUrl, bad);
    assert lines[0..] == lines;
    if i > 0 {
      FirstAcceptable(lines[1..], wantState, parseUrl, bad + 1, i - 1, code);
    }
  }

  // -------------------------------------------------------------------- race

  datatype Callback = Callback(state: string, error: string, code: string)

  datatype Source = Loopback | Paste

  datatype Failure = TooManyBadPastes | CallbackFailed | TimedOut | Cancelled

  datatype Outcome = Exchanged(code: string, source: Source) | Failed(why: Failure)

  const PASTE_CAPACITY: nat := 4

  /**
   What is fixed when the race starts: input lines, the generated state, and
   whether a terminal and the loopback take part.
   */
  datatype Setup = Setup(lines: seq<string>, wantState: string, parseUrl: UrlParser, tty: bool, pasteOnly: bool)

  function ReaderEvents(c: Setup): seq<PasteEvent> {
    if c.tty then EventsOf(c.lines, c.wantState, c.parseUrl, 0) else []
  }

  /**
   The goroutines' shared state.  `read` counts the paste events the select
   loop received; `requests` and `exchanges` record all callback requests and
   code exchanges.
   */
  datatype State = State(
    toSend: seq<PasteEvent>, pasteCh: seq<PasteEvent>, codeCh: seq<string>, errCh: nat,
    read: nat, requests: set<Callback>, exchanges: seq<(string, Source)>, outcome: Option<Outcome>)

  function Initial(c: Setup): State {
    State(ReaderEvents(c), [], [], 0, 0, {}, [], None)
  }

  datatype Step =
    | ReaderSends
    | CallbackSends(request: Callback)
    | ServeFails
    | ReceiveCode
    | ReceivePaste
    | ReceiveError
    | Timeout
    | Cancel

  predicate IsGoodCallback(c: Setup, request: Callback) {
    request.state == c.wantState && request.error == "" && request.code != ""
  }

  /** A step is taken when its channel has room or content, and the loop only while it runs. */
  predicate IsEnabled(c: Setup, s: State, step: Step) {
    match step
    case ReaderSends => s.toSend != [] && |s.pasteCh| < PASTE_CAPACITY
    case CallbackSends(request) => !c.pasteOnly && if IsGoodCallback(c, request) then |s.codeCh| < 1 else s.errCh < 1
    case ServeFails => !c.pasteOnly && s.errCh < 1
    case ReceiveCode => s.outcome == None && s.codeCh != []
    case ReceivePaste => s.outcome == None && s.pasteCh != []
    case ReceiveError => s.outcome == None && s.errCh > 0
    case Timeout => s.outcome == None
    case Cancel => s.outcome == None
  }

  function Exchange(s: State, code: string, source: Source): State {
    s.(exchanges := s.exchanges + [(code, source)], outcome := Some(Exchanged(code, source)))
  }

  function Next(c: Setup, s: State, step: Step): State
    requires IsEnabled(c, s, step)
  {
    match step
    case ReaderSends => s.(toSend := s.toSend[1..], pasteCh := s.pasteCh + [s.toSend[0]])
    case CallbackSends(request) =>
      var t := s.(requests := s.requests + {request});
      if IsGoodCallback(c, request) then t.(codeCh := t.codeCh + [request.code]) else t.(errCh := t.errCh + 1)
    case ServeFails => s.(errCh := s.errCh + 1)
    case ReceiveCode => Exchange(s.(codeCh := s.codeCh[1..]), s.codeCh[0], Loopback)
    case ReceivePaste =>
      var t := s.(pasteCh := s.pasteCh[1..], read := s.read + 1);
      (match s.pasteCh[0]
       case Accepted(code) => Exchange(t, code, Paste)
       case BadPaste(_, bad) => if bad >= 3 then t.(outcome := Some(Failed(TooManyBadPastes))) else t)
    case ReceiveError => s.(errCh := s.errCh - 1, outcome := Some(Failed(CallbackFailed)))
    case Timeout => s.(outcome := Some(Failed(TimedOut)))
    case Cancel => s.(outcome := Some(Failed(Cancelled)))
  }

  ghost predicate IsRun(c: Setup, states: seq<State>, steps: seq<Step>) {
    && |states| == |steps| + 1
    && states[0] == Initial(c)
    && forall i :: 0 <= i < |steps| ==>
         IsEnabled(c, states[i], steps[i]) && states[i + 1] == Next(c, states[i], steps[i])
  }

  /** The code a source may win with: one a line parses to, or one a request with the right state brought. */
  ghost predicate IsRightful(c: Setup, requests: set<Callback>, code: string, source: Source) {
    match source
    case Paste => exists line :: line in c.lines && ParsePastedAuthCode(line, c.wantState, c.parseUrl) == Code(code)
    case Loopback => !c.pasteOnly && exists r :: r in requests && IsGoodCallback(c, r) && r.code == code
  }

  ghost predicate Inv(c: Setup, s: State) {
    var events := ReaderEvents(c);
    && s.read <= |events| <= 3
    && events[s.read..] == s.pasteCh + s.toSend
    && (forall code :: code in s.codeCh ==> IsRightful(c, s.requests, code, Loopback))
    && (match s.outcome
        case Some(Exchanged(code, source)) => s.exchanges == [(code, source)] && IsRightful(c, s.requests, code, source)
        case Some(Failed(_)) => s.exchanges == []
        case None => s.exchanges == [])
    && (s.outcome == Some(Failed(TooManyBadPastes)) <==> s.read == 3 && events[2].BadPaste?)
  }

  lemma InitialInv(c: Setup)
    ensures Inv(c, Initial(c))
  {
    EventsShape(c.lines, c.wantState, c.parseUrl, 0);
  }

  lemma MoreRequestsKeepRightful(c: Setup, requests: set<Callback>, more: set<Callback>, code: string, source: Source)
    requires IsRightful(c, requests, code, source)
    ensures IsRightful(c, requests + more, code, source)
  {
    hide IsGoodCallback, ParsePastedAuthCode;
    if source == Loopback {
      var r :| r in requests && IsGoodCallback(c, r) && r.code == code;
      assert r in requests + more;
    }
  }

  lemma CallbackKeepsInv(c: Setup, s: State, request: Callback)
    requires Inv(c, s) && IsEnabled(c, s, CallbackSends(request))
    ensures Inv(c, Next(c, s, CallbackSends(request)))
  {
    assert IsGoodCallback(c, request) ==> IsRightful(c, s.requests + {request}, request.code, Loopback);
    hide ReaderEvents, IsRightful, IsGoodCallback;
    var t := Next(c, s, CallbackSends(request));
    forall code | code in s.codeCh ensures IsRightful(c, t.requests, code, Loopback) {
      MoreRequestsKeepRightful(c, s.requests, {request}, code, Loopback);
    }
    if s.outcome.Some? && s.outcome.value.Exchanged? {
      MoreRequestsKeepRightful(c, s.requests, {request}, s.outcome.value.code, s.outcome.value.source);
    }
  }

  lemma ReceivePasteKeepsInv(c: Setup, s: State)
    requires Inv(c, s) && IsEnabled(c, s, ReceivePaste)
    ensures Inv(c, Next(c, s, ReceivePaste))
  {
    hide ParsePastedAuthCode, IsGoodCallback;
    QueueHead(ReaderEvents(c), s.read, s.pasteCh, s.toSend);
    EventRightful(c, s.read);
    hide ReaderEvents;
  }

  lemma QueueHead<T>(all: seq<T>, n: nat, queue: seq<T>, rest: seq<T>)
    requires n <= |all| && all[n..] == queue + rest && queue != []
    ensures n < |all| && all[n] == queue[0] && all[n + 1..] == queue[1..] + rest
  {
    assert all[n..][0] == queue[0];
    assert all[n + 1..] == all[n..][1..];
  }

  lemma StepKeepsInv(c: Setup, s: State, step: Step)
    requires Inv(c, s) && IsEnabled(c, s, step)
    ensures Inv(c, Next(c, s, step))
  {
    hide ReaderEvents, IsRightful, IsGoodCallback;
    match step
    case ReaderSends =>
      var t := Next(c, s, step);
      assert s.pasteCh + s.toSend == t.pasteCh + t.toSend;
    case CallbackSends(request) => CallbackKeepsInv(c, s, request);
    case ReceivePaste => ReceivePasteKeepsInv(c, s);
    case _ =>
  }

  lemma EventRightful(c: Setup, i: nat)
    requires i < |ReaderEvents(c)|
    ensures match ReaderEvents(c)[i]
            case Accepted(code) =>
              exists line :: line in c.lines && ParsePastedAuthCode(line, c.wantState, c.parseUrl) == Code(code)
            case BadPaste(_, bad) => bad == i + 1
  {
    EventsShape(c.lines, c.wantState, c.parseUrl, 0);
  }

  lemma {:induction false} RunKeepsInv(c: Setup, states: seq<State>, steps: seq<Step>, i: nat)
    requires IsRun(c, states, steps) && i < |states|
    ensures Inv(c, states[i])
  {
    hide Inv, Next, IsEnabled;
    if i == 0 {
      InitialInv(c);
    } else {
      RunKeepsInv(c, states, steps, i - 1);
      assert IsEnabled(c, states[i - 1], steps[i - 1]) && states[i - 1 + 1] == Next(c, states[i - 1], steps[i - 1]);
      StepKeepsInv(c, states[i - 1], steps[i - 1]);
    }
  }

  /** In every reachable state the paste channel has room for whatever the reader still has to send. */
  lemma ReaderNeverBlocks(c: Setup, states: seq<State>, steps: seq<Step>, i: nat)
    requires IsRun(c, states, steps) && i < |states|
    ensures |states[i].pasteCh| + |states[i].toSend| < PASTE_CAPACITY
    ensures states[i].toSend != [] ==> IsEnabled(c, states[i], ReaderSends)
  {
    RunKeepsInv(c, states, steps, i);
  }

  /** The reader's first three lines are all bad pastes. */
  ghost predicate StartsWithThreeBadPastes(c: Setup) {
    c.tty && |c.lines| >= 3 &&
    forall k :: 0 <= k < 3 ==> ParsePastedAuthCode(c.lines[k], c.wantState, c.parseUrl).Rejected?
  }

  lemma ThreeBadPastes(c: Setup)
    ensures |ReaderEvents(c)| == 3 && ReaderEvents(c)[2].BadPaste? <==> StartsWithThreeBadPastes(c)
  {
    hide ParsePastedAuthCode;
    var events := ReaderEvents(c);
    EventsShape(c.lines, c.wantState, c.parseUrl, 0);
    if |events| == 3 && events[2].BadPaste? {
      forall k | 0 <= k < 3 ensures events[k].BadPaste? {}
    }
    if StartsWithThreeBadPastes(c) {
      assert c.lines[0..] == c.lines;
      EventsUnfolded(c.lines, 0, c.wantState, c.parseUrl, 0);
      EventsUnfolded(c.lines, 1, c.wantState, c.parseUrl, 1);
      EventsUnfolded(c.lines, 2, c.wantState, c.parseUrl, 2);
    }
  }

  /**
   Over any interleaving: at most one exchange is made, and none unless the
   login ends with it; the code exchanged is one the winning source was
   entitled to; and the login has failed for bad pastes exactly when the input
   starts with three of them and the third one was read.
   */
  lemma RaceIsSafe(c: Setup, states: seq<State>, steps: seq<Step>, i: nat)
    requires IsRun(c, states, steps) && i < |states|
    ensures var s := states[i];
            && |s.exchanges| <= 1
            && (s.exchanges != [] ==> s.outcome == Some(Exchanged(s.exchanges[0].0, s.exchanges[0].1)) &&
                                      IsRightful(c, s.requests, s.exchanges[0].0, s.exchanges[0].1))
            && (s.outcome == Some(Failed(TooManyBadPastes)) <==> s.read == 3 && StartsWithThreeBadPastes(c))
  {
    hide ReaderEvents, StartsWithThreeBadPastes, IsRightful;
    RunKeepsInv(c, states, steps, i);
    ThreeBadPastes(c);
  }

  /**
   A code from the loopback was brought by a request with the generated state
   and without an error, one from a paste stands in a line.
   */
  lemma ExchangedCode(c: Setup, states: seq<State>, steps: seq<Step>, i: nat, code: string, source: Source)
    requires IsRun(c, states, steps) && i < |states| && states[i].outcome == Some(Exchanged(code, source))
    ensures source == Loopback ==>
              !c.pasteOnly && code != "" &&
              exists r :: r in states[i].requests && r.state == c.wantState && r.error == "" && r.code == code
    ensures source == Paste ==> exists line :: line in c.lines && IsAcceptable(line, c.wantState, c.parseUrl, code)
  {
    hide ParsePastedAuthCode, IsAcceptable, ReaderEvents;
    RunKeepsInv(c, states, steps, i);
    if source == Paste {
      var line :| line in c.lines && ParsePastedAuthCode(line, c.wantState, c.parseUrl) == Code(code);
      AcceptedCodes(line, c.wantState, c.parseUrl);
    }
  }

  /** Whatever the loop receives ends it, but for a bad paste before the third, and so do time and the context. */
  lemma ReceivingDecides(c: Setup, s: State, step: Step)
    requires IsEnabled(c, s, step)
    ensures match step
            case ReceiveCode => Next(c, s, step).outcome == Some(Exchanged(s.codeCh[0], Loopback))
            case ReceivePaste =>
              (match s.pasteCh[0]
               case Accepted(code) => Next(c, s, step).outcome == Some(Exchanged(code, Paste))
               case BadPaste(_, bad) =>
                 Next(c, s, step).outcome == if bad >= 3 then Some(Failed(TooManyBadPastes)) else None)
            case ReceiveError => Next(c, s, step).outcome == Some(Failed(CallbackFailed))
            case Timeout => Next(c, s, step).outcome == Some(Failed(TimedOut))
            case Cancel => Next(c, s, step).outcome == Some(Failed(Cancelled))
            case _ => Next(c, s, step).outcome == s.outcome
  {
  }

  /** The reader and the loop can take turns for as long as the events are bad pastes, but for a third one. */
  lemma {:induction false} Rounds(c: Setup, n: nat) returns (states: seq<State>, steps: seq<Step>)
    requires n <= |ReaderEvents(c)| && n <= 2 && forall k :: 0 <= k < n ==> ReaderEvents(c)[k].BadPaste?
    ensures IsRun(c, states, steps)
    ensures states[|states| - 1] == State(ReaderEvents(c)[n..], [], [], 0, n, {}, [], None)
  {
    if n == 0 {
      states, steps := [Initial(c)], [];
      assert ReaderEvents(c)[0..] == ReaderEvents(c);
    } else {
      states, steps := Rounds(c, n - 1);
      states, steps := Round(c, states, steps, n - 1);
      EventRightful(c, n - 1);
    }
  }

  /** One more round: the reader sends an event and the loop receives it. */
  lemma Round(c: Setup, states: seq<State>, steps: seq<Step>, n: nat)
    returns (longer: seq<State>, more: seq<Step>)
    requires IsRun(c, states, steps) && n < |ReaderEvents(c)|
    requires states[|states| - 1] == State(ReaderEvents(c)[n..], [], [], 0, n, {}, [], None)
    ensures IsRun(c, longer, more)
    ensures var received := State(ReaderEvents(c)[n + 1..], [ReaderEvents(c)[n]], [], 0, n, {}, [], None);
            longer[|longer| - 1] == Next(c, received, ReceivePaste)
  {
    hide ReaderEvents, Next, IsEnabled;
    var last := states[|states| - 1];
    var received := State(ReaderEvents(c)[n + 1..], [ReaderEvents(c)[n]], [], 0, n, {}, [], None);
    Sending(c, n);
    more := steps + [ReaderSends, ReceivePaste];
    longer := states + [received, Next(c, received, ReceivePaste)];
    forall i | 0 <= i < |more|
      ensures IsEnabled(c, longer[i], more[i]) && longer[i + 1] == Next(c, longer[i], more[i])
    {
      if i < |steps| { assert IsEnabled(c, states[i], steps[i]) && states[i + 1] == Next(c, states[i], steps[i]); }
    }
  }

  lemma Sending(c: Setup, n: nat)
    requires n < |ReaderEvents(c)|
    ensures var s := State(ReaderEvents(c)[n..], [], [], 0, n, {}, [], None);
            var received := State(ReaderEvents(c)[n + 1..], [ReaderEvents(c)[n]], [], 0, n, {}, [], None);
            IsEnabled(c, s, ReaderSends) && Next(c, s, ReaderSends) == received && IsEnabled(c, received, ReceivePaste)
  {
    assert ReaderEvents(c)[n..][1..] == ReaderEvents(c)[n + 1..];
  }

  /** On a terminal, the code of the first acceptable line among three can win the race. */
  lemma AcceptableCanWin(c: Setup, i: nat, code: string) returns (states: seq<State>, steps: seq<Step>)
    requires c.tty && i < 3 && i < |c.lines| && IsAcceptable(c.lines[i], c.wantState, c.parseUrl, code)
    requires forall k, other :: 0 <= k < i ==> !IsAcceptable(c.lines[k], c.wantState, c.parseUrl, other)
    ensures IsRun(c, states, steps) && states[|states| - 1].outcome == Some(Exchanged(code, Paste))
  {
    FirstAcceptable(c.lines, c.wantState, c.parseUrl, 0, i, code);
    states, steps := Rounds(c, i);
    states, steps := Round(c, states, steps, i);
  }

  /** Three bad pastes can end it. */
  lemma BadPastesCanFail(c: Setup) returns (states: seq<State>, steps: seq<Step>)
    requires StartsWithThreeBadPastes(c)
    ensures IsRun(c, states, steps) && states[|states| - 1].outcome == Some(Failed(TooManyBadPastes))
  {
    hide StartsWithThreeBadPastes;
    ThreeBadPastes(c);
    EventsShape(c.lines, c.wantState, c.parseUrl, 0);
    EventRightful(c, 2);
    states, steps := Rounds(c, 2);
    states, steps := Round(c, states, steps, 2);
  }

  /** A callback with the generated state and a code can win. */
  lemma CallbackCanWin(c: Setup, request: Callback) returns (states: seq<State>, steps: seq<Step>)
    requires !c.pasteOnly && IsGoodCallback(c, request)
    ensures IsRun(c, states, steps) && states[|states| - 1].outcome == Some(Exchanged(request.code, Loopback))
  {
    var s := Next(c, Initial(c), CallbackSends(request));
    states, steps := [Initial(c), s, Next(c, s, ReceiveCode)], [CallbackSends(request), ReceiveCode];
  }

  /** Once decided, the outcome stays. */
  lemma {:induction false} OutcomeIsFinal(c: Setup, states: seq<State>, steps: seq<Step>, i: nat, j: nat)
    requires IsRun(c, states, steps) && i <= j < |states| && states[i].outcome.Some?
    ensures states[j].outcome == states[i].outcome && states[j].exchanges == states[i].exchanges
    decreases j
  {
    if i < j {
      OutcomeIsFinal(c, states, steps, i, j - 1);
      assert IsEnabled(c, states[j - 1], steps[j - 1]) && states[j - 1 + 1] == Next(c, states[j - 1], steps[j - 1]);
    }
  }
}
