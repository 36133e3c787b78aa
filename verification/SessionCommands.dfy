/** Injected packets over whole runs: they are the payloads of the commands the queue accepted, in
    order and once each, in both directions; only the last one can be cut off. */
module SessionCommands {
  import opened Common
  import opened PlayPackets
  import opened PlayerTable
  import opened Messages
  import opened Session

  /** The payloads of the commands that inject in one direction. */
  function Payloads(commands: seq<Command>, direction: Direction): seq<seq<Msg>> {
    if commands == [] then []
    else
      var before, c := Payloads(commands[..|commands| - 1], direction), commands[|commands| - 1];
      if c.Inject? && c.direction == direction then before + [c.payload] else before
  }

  /** What was injected into the client's stream. */
  function Injections(events: seq<Event>): seq<seq<Msg>> {
    if events == [] then []
    else
      var before, e := Injections(events[..|events| - 1]), events[|events| - 1];
      if e.Injected? then before + [e.payload] else before
  }

  /** What was injected into the streams of the upstreams. */
  function InjectionsUp(up: seq<UpEvent>): seq<seq<Msg>> {
    if up == [] then []
    else
      var before, e := InjectionsUp(up[..|up| - 1]), up[|up| - 1];
      if e.InjectedUp? then before + [e.payload] else before
  }

  /** The same payloads, but the last one may end early. */
  predicate CutOff(sent: seq<seq<Msg>>, payloads: seq<seq<Msg>>) {
    && |sent| == |payloads|
    && (sent != [] ==>
          && sent[..|sent| - 1] == payloads[..|sent| - 1]
          && sent[|sent| - 1] <= payloads[|sent| - 1])
  }

  /** The commands taken from the queue so far. */
  function Taken(w: World): seq<Command>
    requires |w.queue| <= |w.pushed|
  {
    w.pushed[..|w.pushed| - |w.queue|]
  }

  ghost predicate Traced(w: World) {
    && Wellformed(w)
    && |w.queue| <= |w.pushed| && w.pushed == Taken(w) + w.queue
    && var down, up := Payloads(Taken(w), ClientBound), Payloads(Taken(w), ServerBound);
       if w.phase.Stopped? then CutOff(Injections(w.events), down) && CutOff(InjectionsUp(w.up), up)
       else Injections(w.events) == down && InjectionsUp(w.up) == up
  }

  lemma AppendOne(commands: seq<Command>, c: Command, events: seq<Event>, e: Event, up: seq<UpEvent>, ue: UpEvent)
    ensures forall d ::
      Payloads(commands + [c], d)
      == if c.Inject? && c.direction == d then Payloads(commands, d) + [c.payload] else Payloads(commands, d)
    ensures Injections(events + [e]) == if e.Injected? then Injections(events) + [e.payload] else Injections(events)
    ensures InjectionsUp(up + [ue]) == if ue.InjectedUp? then InjectionsUp(up) + [ue.payload] else InjectionsUp(up)
  {
    assert (commands + [c])[..|commands|] == commands;
    assert (events + [e])[..|events|] == events;
    assert (up + [ue])[..|up|] == up;
  }

  lemma CutOffLast(payloads: seq<seq<Msg>>, payload: seq<Msg>, sent: seq<Msg>)
    requires sent <= payload
    ensures CutOff(payloads + [sent], payloads + [payload])
  {
    assert (payloads + [sent])[..|payloads|] == payloads;
    assert (payloads + [payload])[..|payloads|] == payloads;
  }

  lemma CutOffNothing(payloads: seq<seq<Msg>>)
    ensures CutOff(payloads, payloads)
  {
  }

  /** Taking the first command of the queue. */
  lemma TakeFirst(w: World)
    requires |w.queue| <= |w.pushed| && w.pushed == Taken(w) + w.queue && w.queue != []
    ensures var w' := w.(queue := w.queue[1..]);
      Taken(w') == Taken(w) + [w.queue[0]] && w'.pushed == Taken(w') + w'.queue
  {
  }

  /** A step that takes no command and injects nothing. */
  lemma QuietKeepsTraced(w: World, w': World)
    requires Traced(w) && !w.phase.Stopped? && Wellformed(w')
    requires w'.queue == w.queue && w'.pushed == w.pushed
    requires Injections(w'.events) == Injections(w.events) && InjectionsUp(w'.up) == InjectionsUp(w.up)
    ensures Traced(w')
  {
    hide Payloads, Injections, InjectionsUp, CutOff, Wellformed;
    CutOffNothing(Payloads(Taken(w), ClientBound));
    CutOffNothing(Payloads(Taken(w), ServerBound));
  }

  lemma QuietEvent(events: seq<Event>, e: Event)
    ensures Injections(events + [e]) == if e.Injected? then Injections(events) + [e.payload] else Injections(events)
  {
    AppendOne([], Reconnect, events, e, [], InjectedUp(0, []));
  }

  lemma QuietUpEvent(up: seq<UpEvent>, e: UpEvent)
    ensures InjectionsUp(up + [e]) == if e.InjectedUp? then InjectionsUp(up) + [e.payload] else InjectionsUp(up)
  {
    AppendOne([], Reconnect, [], Torn([]), up, e);
  }

  function Sent(c: Command, accepted: nat): (sent: seq<Msg>)
    requires c.Inject?
    ensures sent <= c.payload
  {
    c.payload[..if accepted < |c.payload| then accepted else |c.payload|]
  }

  lemma InjectFields(w: World, c: Command, accepted: nat, flushed: bool)
    requires Wellformed(w) && c.Inject? && w.phase.Running?
    ensures var w', sent := DoInject(w, c, accepted, flushed), Sent(c, accepted);
      && Wellformed(w') && w'.queue == w.queue && w'.pushed == w.pushed
      && (w'.phase.Running? ==> sent == c.payload) && !w'.phase.AwaitJoin?
      && Injections(w'.events) ==
           (if c.direction == ClientBound then Injections(w.events) + [sent] else Injections(w.events))
      && InjectionsUp(w'.up) ==
           (if c.direction == ServerBound then InjectionsUp(w.up) + [sent] else InjectionsUp(w.up))
  {
    hide Injections, InjectionsUp;
    QuietEvent(w.events, Injected(Sent(c, accepted)));
    QuietUpEvent(w.up, InjectedUp(Current(w), Sent(c, accepted)));
  }

  lemma PayloadsAppend(commands: seq<Command>, c: Command)
    requires c.Inject?
    ensures Payloads(commands + [c], c.direction) == Payloads(commands, c.direction) + [c.payload]
    ensures forall d :: d != c.direction ==> Payloads(commands + [c], d) == Payloads(commands, d)
  {
    AppendOne(commands, c, [], Torn([]), [], InjectedUp(0, []));
  }

  lemma InjectKeepsTraced(w: World, accepted: nat, flushed: bool)
    requires Traced(w) && w.phase.Running? && w.queue != [] && w.queue[0].Inject?
    ensures Traced(DoInject(w.(queue := w.queue[1..]), w.queue[0], accepted, flushed))
  {
    var w1, c := w.(queue := w.queue[1..]), w.queue[0];
    TakeFirst(w);
    InjectFields(w1, c, accepted, flushed);
    hide Payloads, Injections, InjectionsUp, CutOff, Taken, Wellformed, DoInject, Sent;
    var w', sent, payloads := DoInject(w1, c, accepted, flushed), Sent(c, accepted), Payloads(Taken(w), c.direction);
    SameTaken(w1, w');
    PayloadsAppend(Taken(w), c);
    CutOffLast(payloads, c.payload, sent);
    CutOffNothing(Payloads(Taken(w), ClientBound));
    CutOffNothing(Payloads(Taken(w), ServerBound));
  }

  lemma SameTaken(w: World, w': World)
    requires |w.queue| <= |w.pushed| && w'.queue == w.queue && w'.pushed == w.pushed
    ensures Taken(w') == Taken(w)
  {
  }

  lemma ReconnectKeepsTraced(w: World, closed: bool, connected: Option<seq<Msg>>, kicked: bool)
    requires Traced(w) && w.phase.Running? && w.queue != [] && w.queue[0].Reconnect?
    ensures Traced(DoReconnect(w.(queue := w.queue[1..]), closed, connected, kicked))
  {
    hide Payloads, Injections, InjectionsUp, CutOff;
    var w1 := w.(queue := w.queue[1..]);
    TakeFirst(w);
    AppendOne(Taken(w), w.queue[0], w.events, Torn([KickMsg]), w.up, InjectedUp(0, []));
    assert Traced(w1);
    QuietKeepsTraced(w1, DoReconnect(w1, closed, connected, kicked));
  }

  lemma SwitchKeepsTraced(
    cfg: Config, w: World, verdict: Verdict, edited: Msg, order: seq<PlayerListItem>, accepted: nat, flushed: bool)
    requires Traced(w) && w.phase.AwaitJoin? && w.readers[Current(w)].holds
    ensures Traced(DoSwitch(cfg, w, verdict, edited, order, accepted, flushed))
  {
    hide Injections, InjectionsUp, SwitchBlock;
    var w' := DoSwitch(cfg, w, verdict, edited, order, accepted, flushed);
    if |w'.events| > |w.events| {
      QuietEvent(w.events, w'.events[|w.events|]);
    }
    QuietKeepsTraced(w, w');
  }

  lemma UpstreamKeepsTraced(cfg: Config, w: World, verdict: Verdict, edited: Msg, written: bool)
    requires Traced(w) && w.phase.Running? && w.readers[Current(w)].holds
    ensures Traced(TakeFromUpstream(cfg, w, verdict, edited, written))
  {
    hide Injections, InjectionsUp, ApplyMsg, Edited;
    var w' := TakeFromUpstream(cfg, w, verdict, edited, written);
    if |w'.events| > |w.events| {
      QuietEvent(w.events, w'.events[|w.events|]);
    }
    QuietKeepsTraced(w, w');
  }

  lemma ClientKeepsTraced(cfg: Config, w: World, verdict: Verdict, edited: Msg, written: bool)
    requires Traced(w) && w.phase.Running? && w.client.holds
    ensures Traced(TakeFromClient(cfg, w, verdict, edited, written))
  {
    hide Injections, InjectionsUp, Edited;
    var w' := TakeFromClient(cfg, w, verdict, edited, written);
    if |w'.up| > |w.up| {
      QuietUpEvent(w.up, w'.up[|w.up|]);
    }
    QuietKeepsTraced(w, w');
  }

  lemma PushKeepsTraced(w: World, c: Command)
    requires Traced(w)
    ensures Traced(w.(queue := w.queue + [c], pushed := w.pushed + [c]))
  {
    hide Payloads, Injections, InjectionsUp, CutOff;
    assert Taken(w.(queue := w.queue + [c], pushed := w.pushed + [c])) == Taken(w);
  }

  lemma StepKeepsTraced(cfg: Config, w: World, step: Step)
    requires Traced(w)
    ensures Traced(Next(cfg, w, step))
  {
    hide Payloads, Injections, InjectionsUp, CutOff, IsEnumeration;
    hide TakeFromUpstream, TakeFromClient, DoInject, DoReconnect, DoSwitch;
    StepKeepsWellformed(cfg, w, step);
    CutOffNothing(Payloads(Taken(w), ClientBound));
    CutOffNothing(Payloads(Taken(w), ServerBound));
    match step
    case Push(c) => PushKeepsTraced(w, c);
    case TakeUpstream(verdict, edited, written) =>
      if w.phase.Running? && w.readers[Current(w)].holds {
        UpstreamKeepsTraced(cfg, w, verdict, edited, written);
      }
    case TakeClient(verdict, edited, written) =>
      if w.phase.Running? && w.client.holds {
        ClientKeepsTraced(cfg, w, verdict, edited, written);
      }
    case RunInject(accepted, flushed) =>
      if w.phase.Running? && w.queue != [] && w.queue[0].Inject? {
        InjectKeepsTraced(w, accepted, flushed);
      }
    case RunReconnect(closed, connected, kicked) =>
      if w.phase.Running? && w.queue != [] && w.queue[0].Reconnect? {
        ReconnectKeepsTraced(w, closed, connected, kicked);
      }
    case TakeJoin(verdict, edited, order, accepted, flushed) =>
      if w.phase.AwaitJoin? && w.readers[Current(w)].holds && IsEnumeration(w.playerList, order) {
        SwitchKeepsTraced(cfg, w, verdict, edited, order, accepted, flushed);
      }
    case _ =>
  }

  lemma {:induction false} RunIsTraced(cfg: Config, w: World, steps: seq<Step>)
    requires Initial(w)
    ensures Wellformed(w) && Traced(Run(cfg, w, steps))
    decreases |steps|
  {
    InitialIsWellformed(w);
    if steps != [] {
      hide Traced, Next;
      RunIsTraced(cfg, w, steps[..|steps| - 1]);
      StepKeepsTraced(cfg, Run(cfg, w, steps[..|steps| - 1]), steps[|steps| - 1]);
    }
  }

  /** In every run: what was injected towards the client and towards the upstreams is, in order and
      once each, what the accepted commands carried, up to those still queued; after the end of
      the session the last one may be cut off. */
  lemma InjectedAsPushed(cfg: Config, w0: World, steps: seq<Step>)
    requires Initial(w0)
    ensures Wellformed(w0)
    ensures var w := Run(cfg, w0, steps);
      && |w.queue| <= |w.pushed| && w.pushed == Taken(w) + w.queue
      && CutOff(Injections(w.events), Payloads(Taken(w), ClientBound))
      && CutOff(InjectionsUp(w.up), Payloads(Taken(w), ServerBound))
      && (!w.phase.Stopped? ==>
            && Injections(w.events) == Payloads(Taken(w), ClientBound)
            && InjectionsUp(w.up) == Payloads(Taken(w), ServerBound))
  {
    RunIsTraced(cfg, w0, steps);
    var w := Run(cfg, w0, steps);
    hide Run, Payloads, Injections, InjectionsUp, CutOff;
    CutOffNothing(Payloads(Taken(w), ClientBound));
    CutOffNothing(Payloads(Taken(w), ServerBound));
  }
}
