/**
 The connection handshake: the client half and the server half as two step machines over a pair
 of FIFO byte streams.  A stream carries words; reading a word of the wrong width would read
 across a word boundary and is the outcome `Garbled`.  Reading from an empty stream whose writer
 has closed, and writing to a peer that has closed, throw, which is the outcome `Aborted`.
 */
module Handshake {
  import opened Options

  datatype Word = W32(value: int) | W64(value: int)

  /** The compile-time constants of one side. */
  datatype Peer = Peer(magic: int, api: int, protocol: int)

  datatype Outcome = Running | Accepted | Rejected | Aborted | Garbled

  /** A side: the position in its program, what it returned, and the words it has read. */
  datatype Side = Side(pc: nat, outcome: Outcome, got: seq<int>)
  {
    function Read(k: nat): int { if k < |got| then got[k] else 0 }
    function Go(): Side { this.(pc := pc + 1) }
    function End(o: Outcome): Side { this.(outcome := o) }
  }

  datatype State = State(client: Side, server: Side, up: seq<Word>, down: seq<Word>)

  const INITIAL := State(Side(0, Running, []), Side(0, Running, []), [], [])

  /** A side that returns false has closed the stream. */
  predicate Closed(side: Side) {
    side.outcome == Rejected
  }

  datatype IO = IO(side: Side, channel: seq<Word>)

  function Send(side: Side, channel: seq<Word>, peer: Side, w: Word): Option<IO> {
    Some(if Closed(peer) then IO(side.End(Aborted), channel) else IO(side.Go(), channel + [w]))
  }

  /** None: blocked until the peer writes or closes. */
  function Receive(side: Side, channel: seq<Word>, peer: Side, wide: bool): Option<IO> {
    if channel != [] then
      Some(if channel[0].W64? == wide then IO(side.Go().(got := side.got + [channel[0].value]), channel[1..])
           else IO(side.End(Garbled), channel))
    else if Closed(peer) then Some(IO(side.End(Aborted), channel))
    else None
  }

  function Flag(b: bool): int { if b then 1 else 0 }

  /** One step of the client half; None when it has returned or is blocked. */
  function ClientStep(me: Peer, st: State): Option<State> {
    var c := st.client;
    var ok := me.api == c.Read(1) && me.protocol == c.Read(2);
    if c.outcome != Running then None
    else match c.pc
      case 0 => ClientSends(st, W32(me.magic))
      case 1 => ClientReceives(st, false)
      case 2 => Some(st.(client := if me.magic != c.Read(0) then c.End(Rejected) else c.Go()))
      case 3 => ClientSends(st, W64(me.api))
      case 4 => ClientSends(st, W32(me.protocol))
      case 5 => ClientReceives(st, true)
      case 6 => ClientReceives(st, false)
      case 7 => ClientSends(st, W32(Flag(ok)))
      case 8 => Some(st.(client := if !ok then c.End(Rejected) else c.Go()))
      case 9 => ClientReceives(st, false)
      case _ => Some(st.(client := c.End(if c.Read(3) == 0 then Rejected else Accepted)))
  }

  function ClientSends(st: State, w: Word): Option<State> {
    match Send(st.client, st.up, st.server, w)
    case Some(io) => Some(st.(client := io.side, up := io.channel))
  }

  function ClientReceives(st: State, wide: bool): Option<State> {
    match Receive(st.client, st.down, st.server, wide)
    case None => None
    case Some(io) => Some(st.(client := io.side, down := io.channel))
  }

  /** One step of the server half. */
  function ServerStep(me: Peer, st: State): Option<State> {
    var s := st.server;
    var ok := s.Read(1) == me.api && s.Read(2) == me.protocol;
    if s.outcome != Running then None
    else match s.pc
      case 0 => ServerReceives(st, false)
      case 1 => Some(st.(server := if me.magic != s.Read(0) then s.End(Rejected) else s.Go()))
      case 2 => ServerSends(st, W32(me.magic))
      case 3 => ServerReceives(st, true)
      case 4 => ServerReceives(st, false)
      case 5 => ServerSends(st, W64(me.api))
      case 6 => ServerSends(st, W32(me.protocol))
      case 7 => ServerReceives(st, false)
      case 8 => Some(st.(server := if s.Read(3) == 0 then s.End(Rejected) else s.Go()))
      case 9 => ServerSends(st, W32(Flag(ok)))
      case _ => Some(st.(server := s.End(if !ok then Rejected else Accepted)))
  }

  function ServerSends(st: State, w: Word): Option<State> {
    match Send(st.server, st.down, st.client, w)
    case Some(io) => Some(st.(server := io.side, down := io.channel))
  }

  function ServerReceives(st: State, wide: bool): Option<State> {
    match Receive(st.server, st.up, st.client, wide)
    case None => None
    case Some(io) => Some(st.(server := io.side, up := io.channel))
  }

  /** One scheduling choice; a blocked or finished side stays where it is. */
  function Step(c: Peer, s: Peer, st: State, clientTurn: bool): State {
    match if clientTurn then ClientStep(c, st) else ServerStep(s, st)
    case None => st
    case Some(next) => next
  }

  function RunFrom(c: Peer, s: Peer, st: State, schedule: seq<bool>): State
    decreases |schedule|
  {
    if schedule == [] then st else RunFrom(c, s, Step(c, s, st, schedule[0]), schedule[1..])
  }

  /** Some interleaving of the two halves leads here. */
  ghost predicate Reachable(c: Peer, s: Peer, st: State) {
    exists schedule :: RunFrom(c, s, INITIAL, schedule) == st
  }

  predicate Finished(st: State) {
    st.client.outcome != Running && st.server.outcome != Running
  }

  predicate SameVersions(c: Peer, s: Peer) {
    c.api == s.api && c.protocol == s.protocol
  }

  // ----- The invariant: what each side has written is fixed by its position -----

  function ClientScript(c: Peer, s: Peer): seq<Word> {
    [W32(c.magic), W64(c.api), W32(c.protocol), W32(Flag(SameVersions(c, s)))]
  }

  function ServerScript(c: Peer, s: Peer): seq<Word> {
    [W32(s.magic), W64(s.api), W32(s.protocol), W32(Flag(SameVersions(c, s)))]
  }

  function ClientSent(pc: nat): nat {
    if pc == 0 then 0 else if pc <= 3 then 1 else if pc == 4 then 2 else if pc <= 7 then 3 else 4
  }

  function ClientGot(pc: nat): nat {
    if pc <= 1 then 0 else if pc <= 5 then 1 else if pc == 6 then 2 else if pc <= 9 then 3 else 4
  }

  function ServerSent(pc: nat): nat {
    if pc <= 2 then 0 else if pc <= 5 then 1 else if pc == 6 then 2 else if pc <= 9 then 3 else 4
  }

  function ServerGot(pc: nat): nat {
    if pc == 0 then 0 else if pc <= 3 then 1 else if pc == 4 then 2 else if pc <= 7 then 3 else 4
  }

  ghost predicate Reads(got: seq<int>, script: seq<Word>, n: nat) {
    n <= |script| && |got| == n && forall k :: 0 <= k < n ==> got[k] == script[k].value
  }

  ghost predicate Streams(c: Peer, s: Peer, st: State) {
    var i, j := st.client.pc, st.server.pc;
    && i <= 10 && j <= 10
    && ServerGot(j) <= ClientSent(i) && ClientGot(i) <= ServerSent(j)
    && st.up == ClientScript(c, s)[ServerGot(j)..ClientSent(i)]
    && st.down == ServerScript(c, s)[ClientGot(i)..ServerSent(j)]
    && Reads(st.client.got, ServerScript(c, s), ClientGot(i))
    && Reads(st.server.got, ClientScript(c, s), ServerGot(j))
  }

  ghost predicate Verdicts(c: Peer, s: Peer, st: State) {
    var i, j := st.client.pc, st.server.pc;
    && (j >= 2 ==> c.magic == s.magic)
    && (i >= 9 || j >= 9 ==> SameVersions(c, s))
    && (match st.client.outcome
        case Running => true
        case Accepted => i == 10
        case Rejected => i == 8 && !SameVersions(c, s)
        case Aborted => i == 1 && c.magic != s.magic && Closed(st.server)
        case Garbled => false)
    && (match st.server.outcome
        case Running => true
        case Accepted => j == 10
        case Rejected => (j == 1 && c.magic != s.magic) || (j == 8 && !SameVersions(c, s))
        case Aborted => false
        case Garbled => false)
  }

  ghost predicate Inv(c: Peer, s: Peer, st: State) {
    Streams(c, s, st) && Verdicts(c, s, st)
  }

  /** Taking a word off the front of a window of the script. */
  lemma TakeWord(script: seq<Word>, a: nat, b: nat)
    requires a <= b <= |script|
    ensures script[a..b] != [] <==> a < b
    ensures a < b ==> script[a..b][0] == script[a] && script[a..b][1..] == script[a + 1..b]
  {
  }

  /** Adding the next word to the end of a window of the script. */
  lemma AddWord(script: seq<Word>, a: nat, b: nat)
    requires a <= b <= |script|
    ensures b < |script| ==> script[a..b] + [script[b]] == script[a..b + 1]
  {
  }

  lemma {:induction false} ReadWord(got: seq<int>, script: seq<Word>, n: nat)
    requires Reads(got, script, n)
    ensures n < |script| ==> Reads(got + [script[n].value], script, n + 1)
  {
  }

  lemma ClientSendKeeps(c: Peer, s: Peer, st: State)
    requires Inv(c, s, st) && ClientStep(c, st).Some? && st.client.pc in {0, 3, 4, 7}
    ensures Inv(c, s, ClientStep(c, st).value)
  {
    AddWord(ClientScript(c, s), ServerGot(st.server.pc), ClientSent(st.client.pc));
  }

  lemma ClientReceiveKeeps(c: Peer, s: Peer, st: State)
    requires Inv(c, s, st) && ClientStep(c, st).Some? && st.client.pc in {1, 5, 6, 9}
    ensures Inv(c, s, ClientStep(c, st).value)
  {
    TakeWord(ServerScript(c, s), ClientGot(st.client.pc), ServerSent(st.server.pc));
    ReadWord(st.client.got, ServerScript(c, s), ClientGot(st.client.pc));
  }

  lemma ServerSendKeeps(c: Peer, s: Peer, st: State)
    requires Inv(c, s, st) && ServerStep(s, st).Some? && st.server.pc in {2, 5, 6, 9}
    ensures Inv(c, s, ServerStep(s, st).value)
  {
    AddWord(ServerScript(c, s), ClientGot(st.client.pc), ServerSent(st.server.pc));
  }

  lemma ServerReceiveKeeps(c: Peer, s: Peer, st: State)
    requires Inv(c, s, st) && ServerStep(s, st).Some? && st.server.pc in {0, 3, 4, 7}
    ensures Inv(c, s, ServerStep(s, st).value)
  {
    TakeWord(ClientScript(c, s), ServerGot(st.server.pc), ClientSent(st.client.pc));
    ReadWord(st.server.got, ClientScript(c, s), ServerGot(st.server.pc));
  }

  lemma ClientStepKeeps(c: Peer, s: Peer, st: State)
    requires Inv(c, s, st) && ClientStep(c, st).Some?
    ensures Inv(c, s, ClientStep(c, st).value)
  {
    if st.client.pc in {0, 3, 4, 7} {
      ClientSendKeeps(c, s, st);
    } else if st.client.pc in {1, 5, 6, 9} {
      ClientReceiveKeeps(c, s, st);
    }
  }

  lemma ServerStepKeeps(c: Peer, s: Peer, st: State)
    requires Inv(c, s, st) && ServerStep(s, st).Some?
    ensures Inv(c, s, ServerStep(s, st).value)
  {
    if st.server.pc in {2, 5, 6, 9} {
      ServerSendKeeps(c, s, st);
    } else if st.server.pc in {0, 3, 4, 7} {
      ServerReceiveKeeps(c, s, st);
    }
  }

  lemma StepKeeps(c: Peer, s: Peer, st: State, clientTurn: bool)
    requires Inv(c, s, st)
    ensures Inv(c, s, Step(c, s, st, clientTurn))
  {
    if clientTurn && ClientStep(c, st).Some? {
      ClientStepKeeps(c, s, st);
    } else if !clientTurn && ServerStep(s, st).Some? {
      ServerStepKeeps(c, s, st);
    }
  }

  lemma {:induction false} RunFromKeeps(c: Peer, s: Peer, st: State, schedule: seq<bool>)
    requires Inv(c, s, st)
    ensures Inv(c, s, RunFrom(c, s, st, schedule))
    decreases |schedule|
  {
    if schedule == [] {
    } else {
      StepKeeps(c, s, st, schedule[0]);
      RunFromKeeps(c, s, Step(c, s, st, schedule[0]), schedule[1..]);
    }
  }

  lemma InitialKeeps(c: Peer, s: Peer)
    ensures Inv(c, s, INITIAL)
  {
  }

  lemma ReachableKeeps(c: Peer, s: Peer, st: State)
    requires Reachable(c, s, st)
    ensures Inv(c, s, st)
  {
    var schedule :| RunFrom(c, s, INITIAL, schedule) == st;
    InitialKeeps(c, s);
    RunFromKeeps(c, s, INITIAL, schedule);
  }

  /** In every interleaving: if either side accepts then magic and versions match and the other
      side neither rejects nor aborts; the client never sees a wrong magic, neither side ever
      sees a server verdict of false, and no read crosses a word boundary. */
  lemma Agreement(c: Peer, s: Peer, st: State)
    requires Reachable(c, s, st)
    ensures st.client.outcome == Accepted || st.server.outcome == Accepted ==>
              && c.magic == s.magic && c.api == s.api && c.protocol == s.protocol
              && st.client.outcome in {Running, Accepted} && st.server.outcome in {Running, Accepted}
    ensures st.client.outcome != Garbled && st.server.outcome !in {Garbled, Aborted}
    ensures st.client.outcome == Rejected ==> st.client.pc != 2 && st.client.pc != 10
    ensures st.server.outcome == Rejected ==> st.server.pc != 10
  {
    ReachableKeeps(c, s, st);
  }

  /** The words of one direction: `n` of the script have been written, those in `got` have been read, and
      the others are on the stream. */
  ghost predicate WrittenInOrder(script: seq<Word>, got: seq<int>, stream: seq<Word>, n: nat) {
    && |got| <= n <= |script| && stream == script[|got|..n]
    && forall k :: 0 <= k < |got| ==> got[k] == script[k].value
  }

  /** In every interleaving each side sends its magic in 32 bits, its API version in 64, its protocol
      version in 32, and in 32 bits whether both versions match, in this order. */
  lemma WordsOnTheWire(c: Peer, s: Peer, st: State)
    requires Reachable(c, s, st)
    ensures var flag := if c.api == s.api && c.protocol == s.protocol then 1 else 0;
      && (exists n :: WrittenInOrder([W32(c.magic), W64(c.api), W32(c.protocol), W32(flag)], st.server.got, st.up, n))
      && (exists n :: WrittenInOrder([W32(s.magic), W64(s.api), W32(s.protocol), W32(flag)], st.client.got, st.down, n))
  {
    ReachableKeeps(c, s, st);
    var flag := if c.api == s.api && c.protocol == s.protocol then 1 else 0;
    assert ClientScript(c, s) == [W32(c.magic), W64(c.api), W32(c.protocol), W32(flag)];
    assert ServerScript(c, s) == [W32(s.magic), W64(s.api), W32(s.protocol), W32(flag)];
    assert WrittenInOrder(ClientScript(c, s), st.server.got, st.up, ClientSent(st.client.pc));
    assert WrittenInOrder(ServerScript(c, s), st.client.got, st.down, ServerSent(st.server.pc));
  }

  /** How many words the client can have written when it has read so many. */
  predicate ClientInTurn(read: nat, written: nat) {
    match read
    case 0 => written <= 1
    case 1 => 1 <= written <= 3
    case 2 => written == 3
    case 3 => 3 <= written <= 4
    case _ => written == 4
  }

  /** And the server. */
  predicate ServerInTurn(read: nat, written: nat) {
    match read
    case 0 => written == 0
    case 1 => written <= 1
    case 2 => written == 1
    case 3 => 1 <= written <= 3
    case _ => 3 <= written <= 4
  }

  /** In every interleaving the two sides take turns: the client's magic, the server's, the client's versions,
      the server's, the client's verdict, the server's; no side writes before it has read what is due. */
  lemma SidesTakeTurns(c: Peer, s: Peer, st: State)
    requires Reachable(c, s, st)
    ensures ClientInTurn(|st.client.got|, |st.server.got| + |st.up|)
    ensures ServerInTurn(|st.server.got|, |st.client.got| + |st.down|)
  {
    ReachableKeeps(c, s, st);
  }

  /** The verdicts a finished handshake has, for every pair of builds; when both sides accept,
      nothing is left on either stream. */
  lemma FinalVerdicts(c: Peer, s: Peer, st: State)
    requires Reachable(c, s, st) && Finished(st)
    ensures (st.client.outcome, st.server.outcome) ==
              (if c.magic != s.magic then (Aborted, Rejected)
               else if c.api == s.api && c.protocol == s.protocol then (Accepted, Accepted)
               else (Rejected, Rejected))
    ensures st.client.outcome == Accepted ==> st.up == [] && st.down == []
  {
    ReachableKeeps(c, s, st);
  }

  function Remaining(side: Side): nat {
    if side.outcome != Running || side.pc > 10 then 0 else 11 - side.pc
  }

  /** Work left on both sides. */
  function Work(st: State): nat {
    Remaining(st.client) + Remaining(st.server)
  }

  lemma CanMove(c: Peer, s: Peer, st: State)
    requires Inv(c, s, st)
    ensures Finished(st) <==> ClientStep(c, st).None? && ServerStep(s, st).None?
  {
  }

  lemma ClientWorks(c: Peer, s: Peer, st: State)
    requires Inv(c, s, st)
    ensures ClientStep(c, st).Some? ==> Work(ClientStep(c, st).value) < Work(st)
  {
  }

  lemma ServerWorks(c: Peer, s: Peer, st: State)
    requires Inv(c, s, st)
    ensures ServerStep(s, st).Some? ==> Work(ServerStep(s, st).value) < Work(st)
  {
  }

  /** Every step that is taken uses up work, of which there is at most 22, and no reachable state
      is stuck: a state in which neither side can step is one in which both have returned. */
  lemma Progress(c: Peer, s: Peer, st: State)
    requires Reachable(c, s, st)
    ensures Work(st) <= 22
    ensures ClientStep(c, st).Some? ==> Work(ClientStep(c, st).value) < Work(st)
    ensures ServerStep(s, st).Some? ==> Work(ServerStep(s, st).value) < Work(st)
    ensures Finished(st) <==> ClientStep(c, st).None? && ServerStep(s, st).None?
  {
    ReachableKeeps(c, s, st);
    CanMove(c, s, st);
    ClientWorks(c, s, st);
    ServerWorks(c, s, st);
  }

  lemma NextTurn(c: Peer, s: Peer, st: State) returns (turn: bool)
    requires Inv(c, s, st) && !Finished(st)
    ensures Work(Step(c, s, st, turn)) < Work(st) && Inv(c, s, Step(c, s, st, turn))
  {
    CanMove(c, s, st);
    ClientWorks(c, s, st);
    ServerWorks(c, s, st);
    turn := ClientStep(c, st).Some?;
    StepKeeps(c, s, st, turn);
  }

  /** From every state of the invariant some schedule lets both sides return. */
  lemma {:induction false} Terminates(c: Peer, s: Peer, st: State, work: nat) returns (schedule: seq<bool>)
    requires Inv(c, s, st) && Work(st) <= work
    ensures |schedule| <= work && Finished(RunFrom(c, s, st, schedule))
    decreases work
  {
    schedule := [];
    if !Finished(st) {
      var turn := NextTurn(c, s, st);
      var rest := Terminates(c, s, Step(c, s, st, turn), work - 1);
      schedule := [turn] + rest;
      assert schedule[0] == turn && schedule[1..] == rest;
    }
  }
}
