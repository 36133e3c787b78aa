/** The running proxy session as a state machine: the reader goroutines of the client and of
    every upstream so far, the unbuffered channels, the command queue and the main loop of
    handler.go with the commands of commands.go. Every run is a sequence of steps; a step that
    is not enabled changes nothing. */
module Session {
  import opened Common
  import opened PlayPackets
  import opened PlayerTable
  import opened Messages

  /** One read_packets goroutine. It has read `next` packets of its script; if it holds one,
      that is the last one read and it waits to hand it over. */
  datatype Reader = Reader(next: nat, handed: nat, holds: bool, closed: bool, dying: bool)

  datatype Command =
    | Inject(direction: Direction, payload: seq<Msg>, raises: bool)
    | Reconnect

  datatype Phase = Running | AwaitJoin | Stopped

  /** What the main loop did, kept as a history: the packet it was handed and the packet its
      filters left, which was written. A torn event is a write that was cut off by the error
      that ended the session. */
  datatype Event =
    | Relayed(session: nat, index: nat, read: Msg, sent: Msg)
    | Dropped(session: nat, index: nat, read: Msg)
    | Switched(session: nat, join: Join, block: seq<Msg>)
    | Injected(payload: seq<Msg>)
    | Torn(written: seq<Msg>)

  /** What reached an upstream: the client's packets by index, and injected ones. */
  datatype UpEvent =
    | SentUp(session: nat, index: nat, read: Msg, sent: Msg)
    | DroppedUp(index: nat, read: Msg)
    | InjectedUp(session: nat, payload: seq<Msg>)

  datatype World = World(
    scripts: seq<seq<Msg>>,      // what each upstream sends, oldest session first
    readers: seq<Reader>,        // the reader of each upstream session
    clientScript: seq<Msg>,
    client: Reader,
    phase: Phase,
    queue: seq<Command>,
    pushed: seq<Command>,        // every command the queue ever accepted
    playerList: Table,
    out: seq<Msg>,               // written to the client
    events: seq<Event>,
    up: seq<UpEvent>
  )

  /** One step. Its arguments are the choices of the environment: what the filters decide and
      what they make of the packet, which writes succeed, what the new upstream sends, how a range loop is ordered. */
  datatype Step =
    | UpstreamReads(s: nat)
    | UpstreamFails(s: nat)
    | UpstreamQuits(s: nat)
    | ClientReads
    | ClientFails
    | Push(command: Command)
    | TakeUpstream(verdict: Verdict, edited: Msg, written: bool)
    | TakeClient(verdict: Verdict, edited: Msg, written: bool)
    | TakeClosed
    | IdleTimeout
    | RunInject(accepted: nat, flushed: bool)
    | RunReconnect(closed: bool, connected: Option<seq<Msg>>, kicked: bool)
    | TakeJoin(verdict: Verdict, edited: Msg, order: seq<PlayerListItem>, accepted: nat, flushed: bool)

  /** The packet IDs whose bit is set in packetsParsed, by direction. The package itself
      registers savePlayerList, so the player list packet is always parsed. */
  datatype Config = Config(parsedDown: set<int>, parsedUp: set<int>) {
    predicate Valid() { 0x32 in parsedDown }
  }

  const NEW_READER := Reader(0, 0, false, false, false)

  ghost predicate Initial(w: World) {
    && |w.scripts| == |w.readers| == 1 && w.readers[0] == NEW_READER && w.client == NEW_READER
    && w.phase == Running && w.queue == w.pushed == [] && w.playerList == map[]
    && w.out == [] && w.events == [] && w.up == []
  }

  // ---- the readers -----------------------------------------------------------------------

  function ReadNext(r: Reader, script: seq<Msg>): Reader {
    if !r.holds && !r.closed && r.next < |script| then r.(next := r.next + 1, holds := true) else r
  }

  /** The end of the input, a parse error, or the end of the loop. */
  function ReadFails(r: Reader): Reader {
    if !r.holds then r.(closed := true) else r
  }

  /** `case <-tmb.Dying()`: the packet in hand is given up. */
  function Quit(r: Reader): Reader {
    if r.holds && r.dying then r.(holds := false, closed := true) else r
  }

  function HandOver(r: Reader): Reader {
    r.(holds := false, handed := r.handed + 1)
  }

  predicate ReaderOk(r: Reader, script: seq<Msg>) {
    && r.handed <= r.next <= |script|
    && (r.holds ==> !r.closed && r.next == r.handed + 1)
    && (!r.holds && !r.closed ==> r.next == r.handed)
  }

  // ---- the main loop ---------------------------------------------------------------------

  function Current(w: World): int {
    |w.readers| - 1
  }

  predicate Wellformed(w: World) {
    && |w.readers| == |w.scripts| >= 1
    && (forall s :: 0 <= s < |w.readers| ==> ReaderOk(w.readers[s], w.scripts[s]))
    && ReaderOk(w.client, w.clientScript)
    && (w.phase.AwaitJoin? ==> w.readers[Current(w)].handed == 0 && |w.readers| >= 2)
  }

  /** handlePacket for a packet of the current upstream. */
  function TakeFromUpstream(cfg: Config, w: World, verdict: Verdict, edited: Msg, written: bool): (r: World)
    requires Wellformed(w) && w.phase.Running? && w.readers[Current(w)].holds
    ensures Wellformed(r)
  {
    var s := Current(w);
    var i := w.readers[s].handed;
    var m := w.scripts[s][i];
    var parsed := m.Id() in cfg.parsedDown;
    var v := if parsed then verdict else Pass;
    var sent := if parsed then Edited(m, edited) else m;
    var w' := w.(readers := w.readers[s := HandOver(w.readers[s])],
                 playerList := if parsed then ApplyMsg(w.playerList, m) else w.playerList);
    match v
    case Fail => w'.(phase := Stopped)
    case Drop => w'.(events := w.events + [Dropped(s, i, m)])
    case Pass =>
      if written then w'.(out := w.out + [sent], events := w.events + [Relayed(s, i, m, sent)])
      else w'.(phase := Stopped)
  }

  /** handlePacket for a packet of the client. */
  function TakeFromClient(cfg: Config, w: World, verdict: Verdict, edited: Msg, written: bool): (r: World)
    requires Wellformed(w) && w.client.holds
    ensures Wellformed(r)
  {
    var i := w.client.handed;
    var m := w.clientScript[i];
    var parsed := m.Id() in cfg.parsedUp;
    var v := if parsed then verdict else Pass;
    var sent := if parsed then Edited(m, edited) else m;
    var w' := w.(client := HandOver(w.client));
    match v
    case Fail => w'.(phase := Stopped)
    case Drop => w'.(up := w.up + [DroppedUp(i, m)])
    case Pass =>
      if written then w'.(up := w.up + [SentUp(Current(w), i, m, sent)])
      else w'.(phase := Stopped)
  }

  /** injectPacketCommand.Execute: after a failed write the others are not written either,
      and the flush reports it. */
  function DoInject(w: World, c: Command, accepted: nat, flushed: bool): (r: World)
    requires Wellformed(w) && c.Inject?
    ensures Wellformed(r)
  {
    var k := if accepted < |c.payload| then accepted else |c.payload|;
    var sent := c.payload[..k];
    var w' :=
      if c.direction == ClientBound then w.(out := w.out + sent, events := w.events + [Injected(sent)])
      else w.(up := w.up + [InjectedUp(Current(w), sent)]);
    if k < |c.payload| || !flushed || c.raises then w'.(phase := Stopped) else w'
  }

  /** ReconnectCommand.Execute up to the wait for the first packet. */
  function DoReconnect(w: World, closed: bool, connected: Option<seq<Msg>>, kicked: bool): (r: World)
    requires Wellformed(w)
    ensures Wellformed(r)
  {
    var s := Current(w);
    var w' := w.(readers := w.readers[s := w.readers[s].(dying := true)]);
    if !closed then w'.(phase := Stopped)
    else
      match connected
      case Some(script) =>
        w'.(scripts := w.scripts + [script], readers := w'.readers + [NEW_READER], phase := AwaitJoin)
      case None =>
        if kicked then w'.(out := w.out + [KickMsg], events := w.events + [Torn([KickMsg])], phase := Stopped)
        else w'.(phase := Stopped)
  }

  /** The rest of ReconnectCommand.Execute: the hijacked first packet, the filters on it, and
      the switch with what they left of it. */
  function DoSwitch(
    cfg: Config, w: World, verdict: Verdict, edited: Msg,
    order: seq<PlayerListItem>, accepted: nat, flushed: bool): (r: World)
    requires Wellformed(w) && w.phase.AwaitJoin? && w.readers[Current(w)].holds
    ensures Wellformed(r)
  {
    var s := Current(w);
    var m := w.scripts[s][w.readers[s].handed];
    var w' := w.(readers := w.readers[s := HandOver(w.readers[s])]);
    if !m.JoinMsg? || m.Id() !in cfg.parsedDown || !verdict.Pass? then w'.(phase := Stopped)
    else
      var join := Edited(m, edited).join;
      var block := SwitchBlock(order, join);
      if accepted < 6 then
        w'.(out := w.out + block[..accepted], events := w.events + [Torn(block[..accepted])],
            playerList := if accepted > 0 then map[] else w.playerList, phase := Stopped)
      else
        w'.(out := w.out + block, events := w.events + [Switched(s, join, block)], playerList := map[],
            phase := if flushed then Running else Stopped)
  }

  function SetReader(w: World, s: nat, r: Reader): World
    requires s < |w.readers|
  {
    w.(readers := w.readers[s := r])
  }

  function Next(cfg: Config, w: World, step: Step): World
    requires Wellformed(w)
  {
    match step
    case UpstreamReads(s) =>
      if s < |w.readers| then SetReader(w, s, ReadNext(w.readers[s], w.scripts[s])) else w
    case UpstreamFails(s) => if s < |w.readers| then SetReader(w, s, ReadFails(w.readers[s])) else w
    case UpstreamQuits(s) => if s < |w.readers| then SetReader(w, s, Quit(w.readers[s])) else w
    case ClientReads => w.(client := ReadNext(w.client, w.clientScript))
    case ClientFails => w.(client := ReadFails(w.client))
    case Push(c) =>
      if |w.queue| < QUEUE_CAPACITY then w.(queue := w.queue + [c], pushed := w.pushed + [c]) else w
    case TakeUpstream(verdict, edited, written) =>
      if w.phase.Running? && w.readers[Current(w)].holds then TakeFromUpstream(cfg, w, verdict, edited, written) else w
    case TakeClient(verdict, edited, written) =>
      if w.phase.Running? && w.client.holds then TakeFromClient(cfg, w, verdict, edited, written) else w
    case TakeClosed =>
      if (w.phase.Running? && (w.readers[Current(w)].closed || w.client.closed))
         || (w.phase.AwaitJoin? && w.readers[Current(w)].closed)
      then w.(phase := Stopped) else w
    case IdleTimeout => if w.phase.Running? then w.(phase := Stopped) else w
    case RunInject(accepted, flushed) =>
      if w.phase.Running? && w.queue != [] && w.queue[0].Inject?
      then DoInject(w.(queue := w.queue[1..]), w.queue[0], accepted, flushed) else w
    case RunReconnect(closed, connected, kicked) =>
      if w.phase.Running? && w.queue != [] && w.queue[0].Reconnect?
      then DoReconnect(w.(queue := w.queue[1..]), closed, connected, kicked) else w
    case TakeJoin(verdict, edited, order, accepted, flushed) =>
      if w.phase.AwaitJoin? && w.readers[Current(w)].holds && IsEnumeration(w.playerList, order)
      then DoSwitch(cfg, w, verdict, edited, order, accepted, flushed) else w
  }

  lemma StepKeepsWellformed(cfg: Config, w: World, step: Step)
    requires Wellformed(w)
    ensures Wellformed(Next(cfg, w, step))
  {
    hide TakeFromUpstream, TakeFromClient, DoInject, DoReconnect, DoSwitch, IsEnumeration;
  }

  lemma InitialIsWellformed(w: World)
    requires Initial(w)
    ensures Wellformed(w)
  {
  }

  function Run(cfg: Config, w: World, steps: seq<Step>): (r: World)
    requires Wellformed(w)
    ensures Wellformed(r)
  {
    if steps == [] then w
    else
      var before := Run(cfg, w, steps[..|steps| - 1]);
      StepKeepsWellformed(cfg, before, steps[|steps| - 1]);
      Next(cfg, before, steps[|steps| - 1])
  }
}
