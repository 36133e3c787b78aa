/** The injected entries of the client's player list over whole runs: they are what the accepted
    commands alone make of them. So a tab list converges inside a session, whatever upstreams and
    switches send in between. */
module SessionInjected {
  import opened Common
  import opened PlayPackets
  import opened PlayerTable
  import opened Messages
  import opened Session
  import opened SessionMirror
  import SC = SessionCommands
  import SO = SessionOrder
  import T = TabList

  function Flat(payloads: seq<seq<Msg>>): seq<Msg> {
    if payloads == [] then [] else Flat(payloads[..|payloads| - 1]) + payloads[|payloads| - 1]
  }

  lemma FlatAppend(payloads: seq<seq<Msg>>, payload: seq<Msg>)
    ensures Flat(payloads + [payload]) == Flat(payloads) + payload
  {
    assert (payloads + [payload])[..|payloads|] == payloads;
  }

  /** Two clients that agree about an entry still do after the same messages. */
  lemma {:induction false} SameMessages(a: seq<Msg>, b: seq<Msg>, ms: seq<Msg>, u: Uuid)
    requires Lookup(ClientTable(a), u) == Lookup(ClientTable(b), u)
    ensures Lookup(ClientTable(a + ms), u) == Lookup(ClientTable(b + ms), u)
    decreases |ms|
  {
    hide ClientTable, ApplyItems, Effect;
    if ms == [] {
      assert a + ms == a && b + ms == b;
    } else {
      var init, m := ms[..|ms| - 1], ms[|ms| - 1];
      assert a + ms == (a + init) + [m] && b + ms == (b + init) + [m];
      ClientTableAppend(a + init, m);
      ClientTableAppend(b + init, m);
      SameMessages(a, b, init, u);
      if m.PlayerListMsg? {
        EffectIsEntry(ClientTable(a + init), m.list.action, m.list.items, u);
        EffectIsEntry(ClientTable(b + init), m.list.action, m.list.items, u);
      }
    }
  }

  /** The entry is the one the injected messages alone would make. */
  ghost predicate AsInjected(w: World, u: Uuid) {
    Lookup(ClientTable(w.out), u) == Lookup(ClientTable(Flat(SC.Injections(w.events))), u)
  }

  lemma QuietStep(cfg: Config, w: World, step: Step)
    requires Wellformed(w) && !step.RunInject?
    ensures SC.Injections(Next(cfg, w, step).events) == SC.Injections(w.events)
    ensures w.phase.Stopped? ==> Next(cfg, w, step).out == w.out
  {
    hide ApplyMsg, SwitchBlock, SC.Injections, Edited, IsEnumeration;
    var w' := Next(cfg, w, step);
    if |w'.events| > |w.events| {
      SC.QuietEvent(w.events, w'.events[|w.events|]);
    }
  }

  lemma InjectStep(w: World, c: Command, accepted: nat, flushed: bool, u: Uuid)
    requires Wellformed(w) && w.phase.Running? && c.Inject? && AsInjected(w, u)
    ensures AsInjected(DoInject(w, c, accepted, flushed), u)
  {
    SC.InjectFields(w, c, accepted, flushed);
    hide ClientTable, Flat, SC.Injections;
    if c.direction == ClientBound {
      var sent := SC.Sent(c, accepted);
      FlatAppend(SC.Injections(w.events), sent);
      SameMessages(w.out, Flat(SC.Injections(w.events)), sent, u);
    }
  }

  lemma StepKeepsAsInjected(cfg: Config, w: World, step: Step, reserved: Uuid -> bool, u: Uuid)
    requires cfg.Valid() && MirrorInvariant(w, reserved) && TameStep(w, step, reserved) && reserved(u)
    requires AsInjected(w, u)
    ensures AsInjected(Next(cfg, w, step), u)
  {
    if step.RunInject? {
      hide AsInjected, MirrorInvariant, DoInject;
      var w1 := w.(queue := if w.queue == [] then [] else w.queue[1..]);
      if w.phase.Running? && w.queue != [] && w.queue[0].Inject? {
        QueueIrrelevant(w, w1, u);
        WellformedQueue(w, w1, reserved);
        InjectStep(w1, w.queue[0], step.accepted, step.flushed, u);
      }
    } else {
      hide Next, TameStep, ClientTable, Flat, SC.Injections, Mirrors, Tame, Keyed;
      QuietStep(cfg, w, step);
      if !w.phase.Stopped? {
        ReservedEntriesKept(cfg, w, step, reserved, u);
      }
    }
  }

  lemma QueueIrrelevant(w: World, w1: World, u: Uuid)
    requires w1 == w.(queue := w1.queue)
    ensures AsInjected(w1, u) == AsInjected(w, u)
  {
  }

  lemma WellformedQueue(w: World, w1: World, reserved: Uuid -> bool)
    requires MirrorInvariant(w, reserved) && w1 == w.(queue := w1.queue)
    ensures Wellformed(w1)
  {
  }

  lemma {:induction false} RunIsAsInjected(cfg: Config, w: World, steps: seq<Step>, reserved: Uuid -> bool, u: Uuid)
    requires Initial(w) && cfg.Valid() && TameScript(w.scripts[0], reserved)
    requires Wellformed(w) && TameRun(cfg, w, steps, reserved) && reserved(u)
    ensures AsInjected(Run(cfg, w, steps), u)
    decreases |steps|
  {
    if steps != [] {
      hide AsInjected, MirrorInvariant, Next, TameStep, TameScript;
      var before := steps[..|steps| - 1];
      RunIsAsInjected(cfg, w, before, reserved, u);
      RunKeepsMirror(cfg, w, before, reserved);
      StepKeepsAsInjected(cfg, Run(cfg, w, before), steps[|steps| - 1], reserved, u);
    }
  }

  /** In every tame run that has not stopped, a reserved entry of the client is what the payloads of
      the accepted client-bound commands make of it, whatever else the client was sent. */
  lemma ReservedEntriesAsPushed(cfg: Config, w0: World, steps: seq<Step>, reserved: Uuid -> bool, u: Uuid)
    requires Initial(w0) && cfg.Valid() && TameScript(w0.scripts[0], reserved)
    requires Wellformed(w0) && TameRun(cfg, w0, steps, reserved) && reserved(u)
    ensures var w := Run(cfg, w0, steps);
      && |w.queue| <= |w.pushed|
      && (!w.phase.Stopped? ==>
            Lookup(ClientTable(w.out), u) == Lookup(ClientTable(Flat(SC.Payloads(SC.Taken(w), ClientBound))), u))
  {
    hide Run, TameRun, ClientTable, Flat, SC.Payloads, SC.Injections, SC.Taken;
    RunIsAsInjected(cfg, w0, steps, reserved, u);
    SC.InjectedAsPushed(cfg, w0, steps);
  }

  // ---- the tab list in a session ---------------------------------------------------------

  /** The packet that reaches the client in a step, if any. */
  function Arrival(r: T.State, step: T.Step): Option<Msg> {
    if step.OtherPacket? then Some(step.m)
    else if step.Deliver? && r.queue != [] && (r.queue[0].Full? ==> |r.serialized| == T.CELLS)
    then Some(T.TabMessage(r.queue[0], r.serialized))
    else None
  }

  lemma StepIsArrival(r: T.State, step: T.Step)
    requires |r.local.cells| == T.CELLS
    ensures T.Next(r, step).client ==
      if Arrival(r, step).Some? then ApplyMsg(r.client, Arrival(r, step).value) else r.client
  {
    hide ApplyItems, Avoids;
  }

  /** The packets that reached the client in a run of the tab list machine. */
  function Arrived(st: T.State, steps: seq<T.Step>): seq<Msg>
    requires |st.local.cells| == T.CELLS
  {
    if steps == [] then []
    else
      var before, m := steps[..|steps| - 1], Arrival(T.Run(st, steps[..|steps| - 1]), steps[|steps| - 1]);
      if m.Some? then Arrived(st, before) + [m.value] else Arrived(st, before)
  }

  lemma {:induction false} ClientIsArrived(st: T.State, steps: seq<T.Step>)
    requires |st.local.cells| == T.CELLS && st.client == map[]
    ensures T.Run(st, steps).client == ClientTable(Arrived(st, steps))
    decreases |steps|
  {
    if steps == [] {
      NothingArrived(st);
    } else {
      hide ClientTable, ApplyMsg, Arrival, T.Next;
      var before, step := steps[..|steps| - 1], steps[|steps| - 1];
      var r := T.Run(st, before);
      ClientIsArrived(st, before);
      StepIsArrival(r, step);
      if Arrival(r, step).Some? {
        ClientTableAppend(Arrived(st, before), Arrival(r, step).value);
      }
    }
  }

  lemma NothingArrived(st: T.State)
    requires |st.local.cells| == T.CELLS
    ensures T.Run(st, []) == st && ClientTable(Arrived(st, [])) == map[]
  {
  }

  /** A tab list in a session: when the accepted client-bound commands carried what the tab list,
      and others that name no cell, had delivered, then in every tame run of the session, with
      everything flushed and delivered and no refused flush left unrepaired, the session's client
      shows the 80 cells, after any number of switches. */
  lemma TabListInSession(
    cfg: Config, w0: World, steps: seq<Step>, reserved: Uuid -> bool, st: T.State, tabSteps: seq<T.Step>)
    requires Initial(w0) && cfg.Valid() && TameScript(w0.scripts[0], reserved)
    requires Wellformed(w0) && TameRun(cfg, w0, steps, reserved)
    requires forall i :: 0 <= i < T.CELLS ==> reserved(T.CellUuid(i))
    requires T.Initial(st) && st.client == map[]
    requires var w := Run(cfg, w0, steps);
      && !w.phase.Stopped? && |w.queue| <= |w.pushed|
      && Flat(SC.Payloads(SC.Taken(w), ClientBound)) == Arrived(st, tabSteps)
    requires var r := T.Run(st, tabSteps); !r.lost && r.queue == [] && T.Lists(r.local) == []
    ensures T.ShowsCells(ClientTable(Run(cfg, w0, steps).out), T.Run(st, tabSteps).local.cells)
  {
    T.ClientConverges(st, tabSteps);
    ClientIsArrived(st, tabSteps);
    hide Run, TameRun, ClientTable, Flat, SC.Payloads, SC.Taken, Arrived, T.Run;
    var w, r := Run(cfg, w0, steps), T.Run(st, tabSteps);
    forall i | 0 <= i < T.CELLS
      ensures T.CellUuid(i) in ClientTable(w.out) && ClientTable(w.out)[T.CellUuid(i)] == r.local.cells[i]
    {
      ReservedEntriesAsPushed(cfg, w0, steps, reserved, T.CellUuid(i));
      assert Lookup(r.client, T.CellUuid(i)) == Some(r.local.cells[i]);
    }
  }
}
