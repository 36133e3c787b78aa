/** Packet order over whole runs of the session: what the client receives is, session by
    session, what the upstream sent, in order and without repetition, with only dropped
    packets missing and one switch block between sessions; and the same for the other
    direction. */
module SessionOrder {
  import opened Common
  import opened PlayPackets
  import opened PlayerTable
  import opened Messages
  import opened Session

  function RenderEvent(e: Event): seq<Msg> {
    match e
    case Relayed(_, _, _, sent) => [sent]
    case Dropped(_, _, _) => []
    case Switched(_, _, block) => block
    case Injected(payload) => payload
    case Torn(written) => written
  }

  /** What the client receives of these events. */
  function Render(events: seq<Event>): seq<Msg> {
    if events == [] then [] else Render(events[..|events| - 1]) + RenderEvent(events[|events| - 1])
  }

  /** The event accounts for a packet of session s: relayed, dropped, or, for the first packet
      of a later session, taken for the switch. */
  predicate Carries(e: Event, s: int) {
    (e.Relayed? || e.Dropped? || e.Switched?) && e.session == s
  }

  function Index(e: Event): int {
    if e.Relayed? || e.Dropped? then e.index else 0
  }

  function Count(events: seq<Event>, s: int): nat {
    if events == [] then 0
    else Count(events[..|events| - 1], s) + if Carries(events[|events| - 1], s) then 1 else 0
  }

  function Switches(events: seq<Event>): nat {
    if events == [] then 0
    else Switches(events[..|events| - 1]) + if events[|events| - 1].Switched? then 1 else 0
  }

  /** What filters can make of a packet: anything of its type if some filter asked for it, else
      nothing but what it was. */
  predicate MayBecome(parsed: set<int>, read: Msg, sent: Msg) {
    sent == read || (read.Id() in parsed && SameType(read, sent))
  }

  /** What may follow `before`: the next packet of the current session, as its upstream sent
      it and as filters left it; the switch to the next session, built from that session's
      first packet as filters left it; or injected packets. Only a parsed packet can be dropped
      or changed. Nothing follows a torn write. */
  ghost predicate LegalNext(cfg: Config, scripts: seq<seq<Msg>>, before: seq<Event>, e: Event) {
    && (before == [] || !before[|before| - 1].Torn?)
    && match e {
         case Relayed(s, i, m, sent) => IsNextPacket(scripts, before, s, i, m) && MayBecome(cfg.parsedDown, m, sent)
         case Dropped(s, i, m) => IsNextPacket(scripts, before, s, i, m) && m.Id() in cfg.parsedDown
         case Switched(s, join, block) =>
           && s == Switches(before) + 1 && s < |scripts|
           && scripts[s] != [] && scripts[s][0].JoinMsg?
           && MayBecome(cfg.parsedDown, scripts[s][0], JoinMsg(join))
           && exists order :: block == SwitchBlock(order, join)
         case Injected(_) => true
         case Torn(_) => true
       }
  }

  predicate IsNextPacket(scripts: seq<seq<Msg>>, before: seq<Event>, s: nat, i: nat, m: Msg) {
    && s == Switches(before) < |scripts|
    && i == Count(before, s) < |scripts[s]|
    && m == scripts[s][i]
  }

  ghost predicate Grammar(cfg: Config, scripts: seq<seq<Msg>>, events: seq<Event>) {
    events == [] ||
      (var before := events[..|events| - 1];
       Grammar(cfg, scripts, before) && LegalNext(cfg, scripts, before, events[|events| - 1]))
  }

  ghost predicate Ordered(cfg: Config, w: World) {
    && Wellformed(w)
    && w.out == Render(w.events)
    && Grammar(cfg, w.scripts, w.events)
    && (w.phase.Running? ==> Switches(w.events) == Current(w))
    && (w.phase.AwaitJoin? ==> Switches(w.events) == Current(w) - 1)
    && (!w.phase.Stopped? ==> AllAccounted(w))
  }

  /** Every packet the main loop was handed is accounted for, and no write was torn. */
  ghost predicate AllAccounted(w: World)
    requires Wellformed(w)
  {
    && (w.events == [] || !w.events[|w.events| - 1].Torn?)
    && forall s :: 0 <= s < |w.readers| ==> Count(w.events, s) == w.readers[s].handed
  }

  // ---- appending one event ---------------------------------------------------------------

  lemma AppendEvent(cfg: Config, scripts: seq<seq<Msg>>, events: seq<Event>, e: Event)
    requires Grammar(cfg, scripts, events) && LegalNext(cfg, scripts, events, e)
    ensures Grammar(cfg, scripts, events + [e])
    ensures Render(events + [e]) == Render(events) + RenderEvent(e)
    ensures Switches(events + [e]) == Switches(events) + if e.Switched? then 1 else 0
    ensures forall s :: Count(events + [e], s) == Count(events, s) + if Carries(e, s) then 1 else 0
  {
    hide LegalNext;
    assert (events + [e])[..|events|] == events;
  }

  lemma {:induction false} NewSessionKeepsGrammar(
    cfg: Config, scripts: seq<seq<Msg>>, script: seq<Msg>, events: seq<Event>)
    requires Grammar(cfg, scripts, events)
    ensures Grammar(cfg, scripts + [script], events)
    decreases |events|
  {
    if events != [] {
      NewSessionKeepsGrammar(cfg, scripts, script, events[..|events| - 1]);
      var e := events[|events| - 1];
      if e.Switched? {
        assert (scripts + [script])[e.session] == scripts[e.session];
      }
    }
  }

  /** No packet of a session before its switch. */
  lemma {:induction false} LaterSessionsEmpty(cfg: Config, scripts: seq<seq<Msg>>, events: seq<Event>, s: int)
    requires Grammar(cfg, scripts, events) && s > Switches(events)
    ensures Count(events, s) == 0
    decreases |events|
  {
    if events != [] {
      LaterSessionsEmpty(cfg, scripts, events[..|events| - 1], s);
    }
  }

  // ---- one step --------------------------------------------------------------------------

  lemma TakeUpstreamKeepsOrdered(cfg: Config, w: World, verdict: Verdict, edited: Msg, written: bool)
    requires Ordered(cfg, w) && w.phase.Running? && w.readers[Current(w)].holds
    ensures Ordered(cfg, TakeFromUpstream(cfg, w, verdict, edited, written))
  {
    hide Render, Grammar, Count, Switches, ApplyMsg;
    var s := Current(w);
    var i := w.readers[s].handed;
    var m := w.scripts[s][i];
    var v := if m.Id() in cfg.parsedDown then verdict else Pass;
    var sent := if m.Id() in cfg.parsedDown then Edited(m, edited) else m;
    var w' := TakeFromUpstream(cfg, w, verdict, edited, written);
    if v.Drop? {
      AppendEvent(cfg, w.scripts, w.events, Dropped(s, i, m));
      assert w'.out == Render(w'.events);
    } else if v.Pass? && written {
      AppendEvent(cfg, w.scripts, w.events, Relayed(s, i, m, sent));
    }
  }

  lemma InjectKeepsOrdered(cfg: Config, w: World, c: Command, accepted: nat, flushed: bool)
    requires Ordered(cfg, w) && w.phase.Running? && c.Inject?
    ensures Ordered(cfg, DoInject(w, c, accepted, flushed))
  {
    hide Render, Grammar, Count, Switches;
    var k := if accepted < |c.payload| then accepted else |c.payload|;
    AppendEvent(cfg, w.scripts, w.events, Injected(c.payload[..k]));
  }

  lemma ReconnectKeepsOrdered(cfg: Config, w: World, closed: bool, connected: Option<seq<Msg>>, kicked: bool)
    requires Ordered(cfg, w) && w.phase.Running?
    ensures Ordered(cfg, DoReconnect(w, closed, connected, kicked))
  {
    hide Render, Grammar, Count, Switches;
    AppendEvent(cfg, w.scripts, w.events, Torn([KickMsg]));
    if connected.Some? {
      NewSessionKeepsGrammar(cfg, w.scripts, connected.value, w.events);
      LaterSessionsEmpty(cfg, w.scripts, w.events, Current(w) + 1);
    }
  }

  lemma SwitchKeepsOrdered(
    cfg: Config, w: World, verdict: Verdict, edited: Msg, order: seq<PlayerListItem>, accepted: nat, flushed: bool)
    requires Ordered(cfg, w) && w.phase.AwaitJoin? && w.readers[Current(w)].holds
    ensures Ordered(cfg, DoSwitch(cfg, w, verdict, edited, order, accepted, flushed))
  {
    hide Render, Grammar, Count, Switches, SwitchBlock;
    var s := Current(w);
    var m := w.scripts[s][0];
    if m.JoinMsg? && m.Id() in cfg.parsedDown {
      var join := Edited(m, edited).join;
      var block := SwitchBlock(order, join);
      AppendEvent(cfg, w.scripts, w.events, Switched(s, join, block));
      if accepted < 6 {
        AppendEvent(cfg, w.scripts, w.events, Torn(block[..accepted]));
      }
    }
  }

  lemma StepKeepsOrdered(cfg: Config, w: World, step: Step)
    requires Ordered(cfg, w)
    ensures Ordered(cfg, Next(cfg, w, step))
  {
    hide Render, Grammar, Count, Switches, DoInject, DoReconnect, DoSwitch, TakeFromUpstream, IsEnumeration;
    StepKeepsWellformed(cfg, w, step);
    var w' := Next(cfg, w, step);
    match step
    case TakeUpstream(verdict, edited, written) =>
      if w.phase.Running? && w.readers[Current(w)].holds {
        TakeUpstreamKeepsOrdered(cfg, w, verdict, edited, written);
      }
    case RunInject(accepted, flushed) =>
      if w.phase.Running? && w.queue != [] && w.queue[0].Inject? {
        InjectKeepsOrdered(cfg, w.(queue := w.queue[1..]), w.queue[0], accepted, flushed);
      }
    case RunReconnect(closed, connected, kicked) =>
      if w.phase.Running? && w.queue != [] && w.queue[0].Reconnect? {
        ReconnectKeepsOrdered(cfg, w.(queue := w.queue[1..]), closed, connected, kicked);
      }
    case TakeJoin(verdict, edited, order, accepted, flushed) =>
      if w.phase.AwaitJoin? && w.readers[Current(w)].holds && IsEnumeration(w.playerList, order) {
        SwitchKeepsOrdered(cfg, w, verdict, edited, order, accepted, flushed);
      }
    case _ =>
  }

  lemma {:induction false} RunIsOrdered(cfg: Config, w: World, steps: seq<Step>)
    requires Initial(w)
    ensures Wellformed(w) && Ordered(cfg, Run(cfg, w, steps))
    decreases |steps|
  {
    InitialIsWellformed(w);
    if steps != [] {
      hide Ordered, Next;
      RunIsOrdered(cfg, w, steps[..|steps| - 1]);
      StepKeepsOrdered(cfg, Run(cfg, w, steps[..|steps| - 1]), steps[|steps| - 1]);
    }
  }

  // ---- what the grammar says about the whole history --------------------------------------

  predicate Before(a: Event, b: Event)
    requires Carries(a, SessionOf(a)) && Carries(b, SessionOf(b))
  {
    SessionOf(a) < SessionOf(b) || (SessionOf(a) == SessionOf(b) && Index(a) < Index(b))
  }

  function SessionOf(e: Event): int {
    if e.Injected? || e.Torn? then -1 else e.session
  }

  /** Sessions never go back, and within a session indices only grow. */
  ghost predicate InOrder(events: seq<Event>) {
    forall p, q ::
      0 <= p < q < |events| && Carries(events[p], SessionOf(events[p])) && Carries(events[q], SessionOf(events[q]))
      ==> Before(events[p], events[q])
  }

  /** Every event of a packet carries what the upstream sent at that index, and what was written
      is the same unless a filter asked for packets of its ID; a switch block is built from the
      first packet of the new session, as filters left it. */
  ghost predicate Faithful(cfg: Config, scripts: seq<seq<Msg>>, e: Event) {
    match e
    case Relayed(s, i, m, sent) =>
      s < |scripts| && i < |scripts[s]| && m == scripts[s][i] && MayBecome(cfg.parsedDown, m, sent)
    case Dropped(s, i, m) => s < |scripts| && i < |scripts[s]| && m == scripts[s][i] && m.Id() in cfg.parsedDown
    case Switched(s, join, block) =>
      && 0 < s < |scripts| && scripts[s] != [] && scripts[s][0].JoinMsg?
      && MayBecome(cfg.parsedDown, scripts[s][0], JoinMsg(join))
      && exists order :: block == SwitchBlock(order, join)
    case _ => true
  }

  ghost predicate Accounted(events: seq<Event>, s: int, i: int) {
    exists p :: 0 <= p < |events| && Carries(events[p], s) && Index(events[p]) == i
  }

  lemma {:induction false} EventBounds(cfg: Config, scripts: seq<seq<Msg>>, events: seq<Event>, p: nat)
    requires Grammar(cfg, scripts, events) && p < |events|
    ensures Faithful(cfg, scripts, events[p])
    ensures Carries(events[p], SessionOf(events[p])) ==>
      SessionOf(events[p]) <= Switches(events) && Index(events[p]) < Count(events, SessionOf(events[p]))
    decreases |events|
  {
    if p < |events| - 1 {
      EventBounds(cfg, scripts, events[..|events| - 1], p);
    }
  }

  lemma {:induction false} EventsInOrder(cfg: Config, scripts: seq<seq<Msg>>, events: seq<Event>, p: nat, q: nat)
    requires Grammar(cfg, scripts, events) && p < q < |events|
    requires Carries(events[p], SessionOf(events[p])) && Carries(events[q], SessionOf(events[q]))
    ensures Before(events[p], events[q])
    decreases |events|
  {
    var before := events[..|events| - 1];
    if q < |events| - 1 {
      EventsInOrder(cfg, scripts, before, p, q);
    } else {
      EventBounds(cfg, scripts, before, p);
    }
  }

  lemma {:induction false} NoGaps(cfg: Config, scripts: seq<seq<Msg>>, events: seq<Event>, s: int, i: nat)
    requires Grammar(cfg, scripts, events) && i < Count(events, s)
    ensures Accounted(events, s, i)
    decreases |events|
  {
    var before, last := events[..|events| - 1], events[|events| - 1];
    if i < Count(before, s) {
      NoGaps(cfg, scripts, before, s, i);
      var p :| 0 <= p < |before| && Carries(before[p], s) && Index(before[p]) == i;
      assert Carries(events[p], s) && Index(events[p]) == i;
    } else {
      if last.Switched? {
        LaterSessionsEmpty(cfg, scripts, before, s);
      }
      assert Carries(events[|events| - 1], s) && Index(last) == i;
    }
  }

  lemma SwitchedLeadsInto(cfg: Config, scripts: seq<seq<Msg>>, e: Event)
    requires Faithful(cfg, scripts, e)
    ensures e.Switched? ==> LeadsInto(e.block, e.join)
  {
    hide LeadsInto, SwitchBlock;
    if e.Switched? {
      var order :| e.block == SwitchBlock(order, e.join);
      SwitchLeadsInto(order, e.join);
    }
  }

  /** In every interleaving of readers, main loop and commands: what the client received is
      what the history says, the history is in order and faithful to the upstreams, and until
      the session stops no packet that was handed over is missing from it. */
  lemma SessionsInOrder(cfg: Config, w0: World, steps: seq<Step>)
    requires Initial(w0)
    ensures Wellformed(w0)
    ensures var w := Run(cfg, w0, steps);
      && w.out == Render(w.events)
      && InOrder(w.events)
      && (forall p :: 0 <= p < |w.events| ==> Faithful(cfg, w.scripts, w.events[p]))
      && (forall p :: 0 <= p < |w.events| && w.events[p].Switched? ==> LeadsInto(w.events[p].block, w.events[p].join))
      && (!w.phase.Stopped? ==>
            forall s, i :: 0 <= s < |w.readers| && 0 <= i < w.readers[s].handed ==> Accounted(w.events, s, i))
  {
    RunIsOrdered(cfg, w0, steps);
    var w := Run(cfg, w0, steps);
    hide Run, Render, Grammar, Faithful, Wellformed, Before, LeadsInto;
    forall p, q | 0 <= p < q < |w.events|
      && Carries(w.events[p], SessionOf(w.events[p])) && Carries(w.events[q], SessionOf(w.events[q]))
      ensures Before(w.events[p], w.events[q])
    {
      EventsInOrder(cfg, w.scripts, w.events, p, q);
    }
    forall p | 0 <= p < |w.events|
      ensures Faithful(cfg, w.scripts, w.events[p])
      ensures w.events[p].Switched? ==> LeadsInto(w.events[p].block, w.events[p].join)
    {
      EventBounds(cfg, w.scripts, w.events, p);
      SwitchedLeadsInto(cfg, w.scripts, w.events[p]);
    }
    if !w.phase.Stopped? {
      forall s, i | 0 <= s < |w.readers| && 0 <= i < w.readers[s].handed ensures Accounted(w.events, s, i) {
        NoGaps(cfg, w.scripts, w.events, s, i);
      }
    }
  }

  // ---- the other direction ---------------------------------------------------------------

  function CountUp(up: seq<UpEvent>): nat {
    if up == [] then 0
    else CountUp(up[..|up| - 1]) + if up[|up| - 1].InjectedUp? then 0 else 1
  }

  function LastUpstream(up: seq<UpEvent>): nat {
    if up == [] then 0
    else if up[|up| - 1].DroppedUp? then LastUpstream(up[..|up| - 1])
    else up[|up| - 1].session
  }

  /** The client's packets go up one by one in the order they were sent, unchanged unless a
      filter asked for packets of their ID, to the upstream of the moment, and never again to an
      upstream that was left. */
  predicate GrammarUp(cfg: Config, script: seq<Msg>, up: seq<UpEvent>) {
    up == [] ||
      (var before, e := up[..|up| - 1], up[|up| - 1];
       && GrammarUp(cfg, script, before)
       && (!e.InjectedUp? ==> e.index == CountUp(before) < |script| && e.read == script[e.index])
       && (e.DroppedUp? ==> e.read.Id() in cfg.parsedUp)
       && (e.SentUp? ==> MayBecome(cfg.parsedUp, e.read, e.sent))
       && (!e.DroppedUp? ==> e.session >= LastUpstream(before)))
  }

  ghost predicate OrderedUp(cfg: Config, w: World) {
    && Wellformed(w)
    && GrammarUp(cfg, w.clientScript, w.up)
    && LastUpstream(w.up) <= Current(w)
    && (!w.phase.Stopped? ==> CountUp(w.up) == w.client.handed)
  }

  lemma AppendUp(cfg: Config, script: seq<Msg>, up: seq<UpEvent>, e: UpEvent)
    requires GrammarUp(cfg, script, up)
    requires !e.InjectedUp? ==> e.index == CountUp(up) < |script| && e.read == script[e.index]
    requires e.DroppedUp? ==> e.read.Id() in cfg.parsedUp
    requires e.SentUp? ==> MayBecome(cfg.parsedUp, e.read, e.sent)
    requires !e.DroppedUp? ==> e.session >= LastUpstream(up)
    ensures GrammarUp(cfg, script, up + [e])
    ensures CountUp(up + [e]) == CountUp(up) + if e.InjectedUp? then 0 else 1
    ensures LastUpstream(up + [e]) == if e.DroppedUp? then LastUpstream(up) else e.session
  {
    assert (up + [e])[..|up|] == up;
  }

  lemma TakeClientKeepsOrderedUp(cfg: Config, w: World, verdict: Verdict, edited: Msg, written: bool)
    requires OrderedUp(cfg, w) && w.phase.Running? && w.client.holds
    ensures OrderedUp(cfg, TakeFromClient(cfg, w, verdict, edited, written))
  {
    hide GrammarUp, CountUp, LastUpstream;
    var i := w.client.handed;
    var m := w.clientScript[i];
    var sent := if m.Id() in cfg.parsedUp then Edited(m, edited) else m;
    AppendUp(cfg, w.clientScript, w.up, SentUp(Current(w), i, m, sent));
    if m.Id() in cfg.parsedUp {
      AppendUp(cfg, w.clientScript, w.up, DroppedUp(i, m));
    }
  }

  lemma InjectKeepsOrderedUp(cfg: Config, w: World, c: Command, accepted: nat, flushed: bool)
    requires OrderedUp(cfg, w) && c.Inject? && w.phase.Running?
    ensures OrderedUp(cfg, DoInject(w, c, accepted, flushed))
  {
    hide GrammarUp, CountUp, LastUpstream;
    var k := if accepted < |c.payload| then accepted else |c.payload|;
    AppendUp(cfg, w.clientScript, w.up, InjectedUp(Current(w), c.payload[..k]));
  }

  lemma ReconnectKeepsOrderedUp(cfg: Config, w: World, closed: bool, connected: Option<seq<Msg>>, kicked: bool)
    requires OrderedUp(cfg, w) && w.phase.Running?
    ensures OrderedUp(cfg, DoReconnect(w, closed, connected, kicked))
  {
    hide GrammarUp, CountUp, LastUpstream;
  }

  lemma StepKeepsOrderedUp(cfg: Config, w: World, step: Step)
    requires OrderedUp(cfg, w)
    ensures OrderedUp(cfg, Next(cfg, w, step))
  {
    hide GrammarUp, CountUp, LastUpstream, IsEnumeration;
    hide TakeFromUpstream, TakeFromClient, DoInject, DoReconnect, DoSwitch;
    StepKeepsWellformed(cfg, w, step);
    match step
    case TakeClient(verdict, edited, written) =>
      if w.phase.Running? && w.client.holds {
        TakeClientKeepsOrderedUp(cfg, w, verdict, edited, written);
      }
    case RunInject(accepted, flushed) =>
      if w.phase.Running? && w.queue != [] && w.queue[0].Inject? {
        InjectKeepsOrderedUp(cfg, w.(queue := w.queue[1..]), w.queue[0], accepted, flushed);
      }
    case RunReconnect(closed, connected, kicked) =>
      if w.phase.Running? && w.queue != [] && w.queue[0].Reconnect? {
        ReconnectKeepsOrderedUp(cfg, w.(queue := w.queue[1..]), closed, connected, kicked);
      }
    case TakeUpstream(verdict, edited, written) =>
      if w.phase.Running? && w.readers[Current(w)].holds {
        UpstreamStepLeavesUp(cfg, w, verdict, edited, written);
      }
    case TakeJoin(verdict, edited, order, accepted, flushed) =>
      if w.phase.AwaitJoin? && w.readers[Current(w)].holds && IsEnumeration(w.playerList, order) {
        SwitchLeavesUp(cfg, w, verdict, edited, order, accepted, flushed);
      }
    case _ =>
  }

  lemma UpstreamStepLeavesUp(cfg: Config, w: World, verdict: Verdict, edited: Msg, written: bool)
    requires Wellformed(w) && w.phase.Running? && w.readers[Current(w)].holds
    ensures var w' := TakeFromUpstream(cfg, w, verdict, edited, written);
      && w'.up == w.up && w'.client == w.client && w'.clientScript == w.clientScript
      && |w'.readers| == |w.readers|
  {
  }

  lemma SwitchLeavesUp(
    cfg: Config, w: World, verdict: Verdict, edited: Msg, order: seq<PlayerListItem>, accepted: nat, flushed: bool)
    requires Wellformed(w) && w.phase.AwaitJoin? && w.readers[Current(w)].holds
    ensures var w' := DoSwitch(cfg, w, verdict, edited, order, accepted, flushed);
      && w'.up == w.up && w'.client == w.client && w'.clientScript == w.clientScript
      && |w'.readers| == |w.readers|
  {
  }

  lemma {:induction false} RunIsOrderedUp(cfg: Config, w: World, steps: seq<Step>)
    requires Initial(w)
    ensures Wellformed(w) && OrderedUp(cfg, Run(cfg, w, steps))
    decreases |steps|
  {
    InitialIsWellformed(w);
    if steps != [] {
      hide OrderedUp, Next;
      RunIsOrderedUp(cfg, w, steps[..|steps| - 1]);
      StepKeepsOrderedUp(cfg, Run(cfg, w, steps[..|steps| - 1]), steps[|steps| - 1]);
    }
  }

  /** What a step sends up goes to the newest upstream there is. */
  lemma SentToNewest(cfg: Config, w: World, step: Step)
    requires Wellformed(w)
    ensures var w' := Next(cfg, w, step);
      || w'.up == w.up
      || (exists e :: w'.up == w.up + [e] && (!e.DroppedUp? ==> e.session == |w.scripts| - 1) && w.phase.Running?)
  {
    hide IsEnumeration, ApplyMsg, SwitchBlock, Edited;
    match step
    case TakeClient(verdict, edited, written) =>
      if w.phase.Running? && w.client.holds {
        var w' := TakeFromClient(cfg, w, verdict, edited, written);
        if |w'.up| > |w.up| {
          assert w'.up == w.up + [w'.up[|w.up|]];
        }
      }
    case RunInject(accepted, flushed) =>
      if w.phase.Running? && w.queue != [] && w.queue[0].Inject? {
        var w' := DoInject(w.(queue := w.queue[1..]), w.queue[0], accepted, flushed);
        if |w'.up| > |w.up| {
          assert w'.up == w.up + [w'.up[|w.up|]];
        }
      }
    case _ =>
  }

  /** In every run, whatever went up went to the upstream of the moment: the newest of the sessions
      at the time it was sent. */
  lemma {:induction false} SentToUpstreamOfMoment(cfg: Config, w: World, steps: seq<Step>, k: nat) returns (j: nat)
    requires Initial(w) && Wellformed(w) && k < |Run(cfg, w, steps).up|
    ensures j < |steps| && |Run(cfg, w, steps[..j]).up| == k && Run(cfg, w, steps[..j]).phase.Running?
    ensures var e := Run(cfg, w, steps).up[k];
      !e.DroppedUp? ==> e.session == |Run(cfg, w, steps[..j]).scripts| - 1
    decreases |steps|
  {
    hide Next;
    var before := steps[..|steps| - 1];
    var r := Run(cfg, w, before);
    SentToNewest(cfg, r, steps[|steps| - 1]);
    if k < |r.up| {
      j := SentToUpstreamOfMoment(cfg, w, before, k);
      assert before[..j] == steps[..j];
    } else {
      j := |steps| - 1;
    }
  }
}
