/** The command parser: a chain of handlers, each recognising one command, and the chat-mode state. */
module Commands {
  import opened Options

  datatype Command =
    | Help | Peers | Status | Sessions | Identities | Scan | Version
    | Mode(newMode: string)
    | Send(peer: string, message: string)
    | Broadcast(message: string)
    | Connect(relay: string)
    | Disconnect | Publish | Unpublish
    | Trust(peer: string, alias: string)
    | Verify(peer: string)
    | Chat(contact: string)
    | Leave
    | Unknown(input: string)

  datatype Handler =
    | OnSend | OnChat | OnLeave | OnHelp | OnStatus | OnPeers | OnSessions | OnConnect | OnDisconnect
    | OnIdentities | OnTrust | OnVerify | OnBroadcast | OnMode | OnScan | OnVersion | OnPublish | OnUnpublish

  datatype Contact = Contact(rdx: string, alias: string)

  /** `lookup_contact`: the identifiers that resolve to a contact; the others throw. */
  type Contacts = map<string, Contact>

  const CHAIN: seq<Handler> :=
    [OnSend, OnChat, OnLeave, OnHelp, OnStatus, OnPeers, OnSessions, OnConnect, OnDisconnect,
     OnIdentities, OnTrust, OnVerify, OnBroadcast, OnMode, OnScan, OnVersion, OnPublish, OnUnpublish]

  function Spelling(h: Handler): string {
    match h
    case OnSend => "/send "
    case OnChat => "/chat "
    case OnLeave => "/leave"
    case OnHelp => "/help"
    case OnStatus => "/status"
    case OnPeers => "/peers"
    case OnSessions => "/sessions"
    case OnConnect => "/connect "
    case OnDisconnect => "/disconnect"
    case OnIdentities => "/identities"
    case OnTrust => "/trust "
    case OnVerify => "/verify "
    case OnBroadcast => "/broadcast "
    case OnMode => "/mode "
    case OnScan => "/scan"
    case OnVersion => "/version"
    case OnPublish => "/publish"
    case OnUnpublish => "/unpublish"
  }

  predicate TakesArguments(h: Handler) {
    h.OnSend? || h.OnChat? || h.OnConnect? || h.OnTrust? || h.OnVerify? || h.OnBroadcast? || h.OnMode?
  }

  predicate Matches(h: Handler, input: string) {
    if TakesArguments(h) then Spelling(h) <= input else input == Spelling(h)
  }

  function FirstSpace(s: string): (i: nat)
    ensures i <= |s| && ' ' !in s[..i] && (i < |s| ==> s[i] == ' ')
  {
    if s == [] || s[0] == ' ' then 0
    else
      assert s[..1 + FirstSpace(s[1..])] == [s[0]] + s[1..][..FirstSpace(s[1..])];
      1 + FirstSpace(s[1..])
  }

  /** The event a handler makes of the text behind its prefix. */
  function Make(h: Handler, args: string): Command {
    match h
    case OnSend => var i := FirstSpace(args); if i < |args| then Send(args[..i], args[i + 1..]) else Send("", "")
    case OnChat => Chat(args)
    case OnLeave => Leave
    case OnHelp => Help
    case OnStatus => Status
    case OnPeers => Peers
    case OnSessions => Sessions
    case OnConnect => Connect(args)
    case OnDisconnect => Disconnect
    case OnIdentities => Identities
    case OnTrust => var i := FirstSpace(args); if i < |args| then Trust(args[..i], args[i + 1..]) else Trust(args, "")
    case OnVerify => Verify(args)
    case OnBroadcast => Broadcast(args)
    case OnMode => Mode(args)
    case OnScan => Scan
    case OnVersion => Version
    case OnPublish => Publish
    case OnUnpublish => Unpublish
  }

  function Extract(h: Handler, input: string): Command
    requires Matches(h, input)
  {
    Make(h, input[|Spelling(h)|..])
  }

  /** The contact whose chat is active after a command: failed lookups and empty names change nothing. */
  function NextActive(active: Option<string>, c: Command, contacts: Contacts): Option<string> {
    match c
    case Chat(name) => if name != "" && name in contacts then Some(contacts[name].rdx) else active
    case Leave => None
    case _ => active
  }

  function FirstMatch(chain: seq<Handler>, input: string): (h: Option<Handler>)
    ensures h.Some? ==> h.value in chain && Matches(h.value, input)
    ensures h.None? ==> forall k :: k in chain ==> !Matches(k, input)
  {
    if chain == [] then None
    else if Matches(chain[0], input) then Some(chain[0])
    else FirstMatch(chain[1..], input)
  }

  /** In chat mode, text that does not start with a slash becomes a send to the active contact. */
  function Effective(active: Option<string>, input: string): string {
    if active.Some? && !("/" <= input) then "/send " + active.value + " " + input else input
  }

  function ParseWith(chain: seq<Handler>, active: Option<string>, input: string): Command {
    var text := Effective(active, input);
    var h := FirstMatch(chain, text);
    if h.Some? then Extract(h.value, text) else Unknown(text)
  }

  function Parse(active: Option<string>, input: string): Command { ParseWith(CHAIN, active, input) }

  // ---------------------------------------------------------------- at most one handler matches

  /** No two command texts agree on the four characters behind the slash. */
  function Identify(s: string): Option<Handler>
    requires |s| >= 5
  {
    match s[1]
    case 's' => (match s[2]
                 case 'e' => if s[3] == 'n' then Some(OnSend) else Some(OnSessions)
                 case 't' => Some(OnStatus)
                 case 'c' => Some(OnScan)
                 case _ => None)
    case 'c' => if s[2] == 'h' then Some(OnChat) else Some(OnConnect)
    case 'l' => Some(OnLeave)
    case 'h' => Some(OnHelp)
    case 'p' => if s[2] == 'e' then Some(OnPeers) else Some(OnPublish)
    case 'd' => Some(OnDisconnect)
    case 'i' => Some(OnIdentities)
    case 't' => Some(OnTrust)
    case 'v' => if s[4] == 'i' then Some(OnVerify) else Some(OnVersion)
    case 'b' => Some(OnBroadcast)
    case 'm' => Some(OnMode)
    case 'u' => Some(OnUnpublish)
    case _ => None
  }

  lemma {:induction false} SpellingIdentifies(h: Handler)
    ensures |Spelling(h)| >= 5 && Spelling(h)[0] == '/' && Identify(Spelling(h)) == Some(h)
  {
  }

  lemma {:induction false} MatchIdentifies(h: Handler, input: string)
    requires Matches(h, input)
    ensures |input| >= 5 && Identify(input) == Some(h)
  {
    SpellingIdentifies(h);
    var text := Spelling(h);
    assert text <= input;
    assert input[1] == text[1] && input[2] == text[2] && input[3] == text[3] && input[4] == text[4];
  }

  lemma {:induction false} AtMostOneHandler(a: Handler, b: Handler, input: string)
    requires Matches(a, input) && Matches(b, input)
    ensures a == b
  {
    MatchIdentifies(a, input);
    MatchIdentifies(b, input);
  }

  /** Handler order is irrelevant: chains of the same handlers parse every input alike. */
  lemma {:induction false} OrderIsIrrelevant(one: seq<Handler>, other: seq<Handler>, active: Option<string>,
                                             input: string)
    requires forall h :: h in one <==> h in other
    ensures ParseWith(one, active, input) == ParseWith(other, active, input)
  {
    var text := Effective(active, input);
    var a, b := FirstMatch(one, text), FirstMatch(other, text);
    if a.Some? && b.Some? {
      AtMostOneHandler(a.value, b.value, text);
    }
  }

  lemma {:induction false} ChainIsComplete(h: Handler)
    ensures h in CHAIN
  {
    match h
    case OnSend => assert CHAIN[0] == h;
    case OnChat => assert CHAIN[1] == h;
    case OnLeave => assert CHAIN[2] == h;
    case OnHelp => assert CHAIN[3] == h;
    case OnStatus => assert CHAIN[4] == h;
    case OnPeers => assert CHAIN[5] == h;
    case OnSessions => assert CHAIN[6] == h;
    case OnConnect => assert CHAIN[7] == h;
    case OnDisconnect => assert CHAIN[8] == h;
    case OnIdentities => assert CHAIN[9] == h;
    case OnTrust => assert CHAIN[10] == h;
    case OnVerify => assert CHAIN[11] == h;
    case OnBroadcast => assert CHAIN[12] == h;
    case OnMode => assert CHAIN[13] == h;
    case OnScan => assert CHAIN[14] == h;
    case OnVersion => assert CHAIN[15] == h;
    case OnPublish => assert CHAIN[16] == h;
    case OnUnpublish => assert CHAIN[17] == h;
  }

  // ---------------------------------------------------------------- printing undoes parsing

  function HandlerOf(c: Command): Handler
    requires !c.Unknown?
  {
    match c
    case Help => OnHelp
    case Peers => OnPeers
    case Status => OnStatus
    case Sessions => OnSessions
    case Identities => OnIdentities
    case Scan => OnScan
    case Version => OnVersion
    case Mode(_) => OnMode
    case Send(_, _) => OnSend
    case Broadcast(_) => OnBroadcast
    case Connect(_) => OnConnect
    case Disconnect => OnDisconnect
    case Publish => OnPublish
    case Unpublish => OnUnpublish
    case Trust(_, _) => OnTrust
    case Verify(_) => OnVerify
    case Chat(_) => OnChat
    case Leave => OnLeave
  }

  function Arguments(c: Command): string {
    match c
    case Mode(m) => m
    case Send(peer, message) => peer + " " + message
    case Broadcast(message) => message
    case Connect(relay) => relay
    case Trust(peer, alias) => if alias == "" then peer else peer + " " + alias
    case Verify(peer) => peer
    case Chat(contact) => contact
    case _ => ""
  }

  function Print(c: Command): string {
    if c.Unknown? then c.input else Spelling(HandlerOf(c)) + Arguments(c)
  }

  /** Peers are written without spaces, and unknown input is input that no handler takes. */
  predicate Canonical(c: Command) {
    match c
    case Send(peer, _) => ' ' !in peer
    case Trust(peer, _) => ' ' !in peer
    case Unknown(input) => FirstMatch(CHAIN, input).None?
    case _ => true
  }

  lemma {:induction false} SplitAtSpace(s: string, i: nat)
    requires i <= |s| && ' ' !in s[..i] && (i < |s| ==> s[i] == ' ')
    ensures FirstSpace(s) == i
    decreases i
  {
    if i > 0 {
      assert s[..i][0] == s[0];
      assert s[1..][..i - 1] == s[..i][1..];
      SplitAtSpace(s[1..], i - 1);
    }
  }

  lemma {:induction false} SpaceFound(peer: string, rest: string)
    requires ' ' !in peer
    ensures FirstSpace(peer + " " + rest) == |peer|
    ensures (peer + " " + rest)[..|peer|] == peer && (peer + " " + rest)[|peer| + 1..] == rest
  {
    var s := peer + " " + rest;
    var i := FirstSpace(s);
    assert s[..|peer|] == peer;
    assert s[|peer|] == ' ';
    SplitAtSpace(s, |peer|);
  }

  lemma {:induction false} NoSpaceFound(s: string)
    requires ' ' !in s
    ensures FirstSpace(s) == |s|
  {
    SplitAtSpace(s, |s|);
  }

  lemma {:induction false} MakeUndoesArguments(c: Command)
    requires !c.Unknown? && Canonical(c)
    ensures Make(HandlerOf(c), Arguments(c)) == c
  {
    match c
    case Send(peer, message) => SpaceFound(peer, message);
    case Trust(peer, alias) =>
      if alias == "" {
        NoSpaceFound(peer);
      } else {
        SpaceFound(peer, alias);
      }
    case _ =>
  }

  lemma {:induction false} MadeIsCanonical(h: Handler, args: string)
    ensures !Make(h, args).Unknown? && Canonical(Make(h, args))
  {
    assert args[..|args|] == args;
  }

  lemma {:induction false} OnlyWithArguments(c: Command)
    requires !c.Unknown? && !TakesArguments(HandlerOf(c))
    ensures Arguments(c) == ""
  {
  }

  lemma {:induction false} ExtractUndoesPrint(c: Command)
    requires !c.Unknown? && Canonical(c)
    ensures Matches(HandlerOf(c), Print(c)) && Extract(HandlerOf(c), Print(c)) == c
  {
    var text, args := Spelling(HandlerOf(c)), Arguments(c);
    assert (text + args)[|text|..] == args && text <= text + args;
    if !TakesArguments(HandlerOf(c)) {
      OnlyWithArguments(c);
    }
    MakeUndoesArguments(c);
  }

  /**
   * Each command printed canonically parses back to itself, in and out of chat mode; unknown input
   * does so out of chat mode or if it starts with a slash.
   */
  lemma {:induction false} ParseUndoesPrint(active: Option<string>, c: Command)
    requires Canonical(c)
    requires c.Unknown? ==> active.None? || "/" <= c.input
    ensures Parse(active, Print(c)) == c
  {
    if !c.Unknown? {
      var h := HandlerOf(c);
      ExtractUndoesPrint(c);
      SpellingIdentifies(h);
      assert "/" <= Print(c);
      ChainIsComplete(h);
      AtMostOneHandler(h, FirstMatch(CHAIN, Print(c)).value, Print(c));
    }
  }

  /** Whatever the parser returns is canonical, so printing and parsing again changes nothing. */
  lemma {:induction false} ParsedIsCanonical(active: Option<string>, input: string)
    ensures Canonical(Parse(active, input))
    ensures Parse(None, Print(Parse(active, input))) == Parse(active, input)
  {
    var text := Effective(active, input);
    var h := FirstMatch(CHAIN, text);
    if h.Some? {
      MadeIsCanonical(h.value, text[|Spelling(h.value)|..]);
    }
    ParseUndoesPrint(None, Parse(active, input));
  }

  // ---------------------------------------------------------------- the commands, written out

  /** The syntax of the commands, as the help text gives it; peers are written without spaces. */
  predicate IsWritten(c: Command, text: string) {
    match c
    case Help => text == "/help"
    case Peers => text == "/peers"
    case Status => text == "/status"
    case Sessions => text == "/sessions"
    case Identities => text == "/identities"
    case Scan => text == "/scan"
    case Version => text == "/version"
    case Mode(mode) => text == "/mode " + mode
    case Send(peer, message) => ' ' !in peer && text == "/send " + (peer + " " + message)
    case Broadcast(message) => text == "/broadcast " + message
    case Connect(relay) => text == "/connect " + relay
    case Disconnect => text == "/disconnect"
    case Publish => text == "/publish"
    case Unpublish => text == "/unpublish"
    case Trust(peer, alias) =>
      ' ' !in peer && text == "/trust " + if alias == "" then peer else peer + " " + alias
    case Verify(peer) => text == "/verify " + peer
    case Chat(contact) => text == "/chat " + contact
    case Leave => text == "/leave"
    case Unknown(_) => false
  }

  lemma {:induction false} WrittenIsPrinted(c: Command, text: string)
    requires IsWritten(c, text)
    ensures !c.Unknown? && Canonical(c) && Spelling(HandlerOf(c)) + Arguments(c) == text
  {
    if !c.Unknown? && !TakesArguments(HandlerOf(c)) {
      assert Spelling(HandlerOf(c)) + "" == Spelling(HandlerOf(c));
    }
  }

  /** Every command, written out, is understood as that command, in and out of chat mode. */
  lemma {:induction false} WrittenIsUnderstood(active: Option<string>, c: Command, text: string)
    requires IsWritten(c, text)
    ensures Parse(active, text) == c
  {
    WrittenIsPrinted(c, text);
    ParseUndoesPrint(active, c);
  }

  /** A send without a text names nobody. */
  lemma {:induction false} SendWithoutText(active: Option<string>, peer: string)
    requires ' ' !in peer
    ensures Parse(active, "/send " + peer) == Send("", "")
  {
    var text := "/send " + peer;
    assert text[|Spelling(OnSend)|..] == peer;
    NoSpaceFound(peer);
    ChainIsComplete(OnSend);
    assert Matches(OnSend, text);
    AtMostOneHandler(OnSend, FirstMatch(CHAIN, text).value, text);
  }

  // ---------------------------------------------------------------- chat mode

  lemma {:induction false} ChatTextParses(rdx: string, text: string)
    requires ' ' !in rdx && !("/" <= text)
    ensures Parse(Some(rdx), text) == Send(rdx, text)
  {
    assert Effective(Some(rdx), text) == Print(Send(rdx, text));
    ParseUndoesPrint(None, Send(rdx, text));
  }

  /**
   * In chat mode every text not starting with a slash is a send to exactly the active contact, with
   * exactly that text, if and only if the contact's fingerprint contains no space.
   */
  lemma {:induction false} ChatTextIsSentExactly(rdx: string)
    ensures (forall text :: !("/" <= text) ==> Parse(Some(rdx), text) == Send(rdx, text)) <==> ' ' !in rdx
  {
    if ' ' !in rdx {
      forall text | !("/" <= text) ensures Parse(Some(rdx), text) == Send(rdx, text) {
        ChatTextParses(rdx, text);
      }
    } else {
      SpacedContactIsMissed(rdx);
    }
  }

  lemma {:induction false} SpacedContactIsMissed(rdx: string)
    requires ' ' in rdx
    ensures !("/" <= "") && Parse(Some(rdx), "") != Send(rdx, "")
  {
    ParsedIsCanonical(Some(rdx), "");
  }

  // ---------------------------------------------------------------- the parser object

  class CommandParser {
    var active: Option<string>
    var handlers: seq<Handler>

    constructor ()
      ensures active == None && handlers == CHAIN
    {
      active, handlers := None, CHAIN;
    }

    /** One handler of the chain: the lambdas for /chat and /leave also switch the chat. */
    method Try(h: Handler, text: string, contacts: Contacts) returns (r: Option<Command>)
      modifies this`active
      ensures r.Some? <==> Matches(h, text)
      ensures r.Some? ==> r.value == Extract(h, text)
      ensures active == if r.Some? then NextActive(old(active), r.value, contacts) else old(active)
    {
      if !Matches(h, text) {
        return None;
      }
      var c := Extract(h, text);
      if c.Chat? && c.contact != "" && c.contact in contacts {
        active := Some(contacts[c.contact].rdx);
      }
      if c.Leave? {
        active := None;
      }
      return Some(c);
    }

    method ParseInput(input: string, contacts: Contacts) returns (c: Command)
      modifies this`active
      ensures c == ParseWith(handlers, old(active), input)
      ensures active == NextActive(old(active), c, contacts)
    {
      var text := input;
      if active.Some? && !("/" <= input) {
        text := "/send " + active.value + " " + input;
      }
      var i := 0;
      while i < |handlers|
        invariant 0 <= i <= |handlers| && active == old(active)
        invariant FirstMatch(handlers, text) == FirstMatch(handlers[i..], text)
      {
        var r := Try(handlers[i], text, contacts);
        if r.Some? {
          return r.value;
        }
        assert handlers[i..][1..] == handlers[i + 1..];
        i := i + 1;
      }
      c := Unknown(text);
    }
  }

  /**
   * Two parsers with the same handlers in whatever order, starting from the same chat and fed the same
   * inputs with the same contacts, return the same commands and stay in the same chat.
   */
  method ParseSideBySide(one: CommandParser, other: CommandParser, inputs: seq<(string, Contacts)>)
    returns (cs: seq<Command>, ds: seq<Command>)
    requires one != other && one.active == other.active
    requires forall h :: h in one.handlers <==> h in other.handlers
    modifies one`active, other`active
    ensures cs == ds && |cs| == |inputs| && one.active == other.active
  {
    cs, ds := [], [];
    for i := 0 to |inputs|
      invariant cs == ds && |cs| == i && one.active == other.active
    {
      OrderIsIrrelevant(one.handlers, other.handlers, one.active, inputs[i].0);
      var c := one.ParseInput(inputs[i].0, inputs[i].1);
      var d := other.ParseInput(inputs[i].0, inputs[i].1);
      cs, ds := cs + [c], ds + [d];
    }
  }
}
