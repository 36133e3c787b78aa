/** The proxy's player list over whole runs: it mirrors the client's, apart from the entries
    that were injected, and a switch empties both before the new upstream is shown. */
module SessionMirror {
  import opened Common
  import opened PlayPackets
  import opened PlayerTable
  import opened Messages
  import opened Session

  ghost predicate Mirrors(w: World, reserved: Uuid -> bool) {
    Outside(ClientTable(w.out), reserved) == w.playerList
  }

  /** Injected packets touch only reserved UUIDs, upstreams never do. */
  predicate TameCommand(c: Command, reserved: Uuid -> bool) {
    c.Inject? && c.direction == ClientBound ==>
      forall i :: 0 <= i < |c.payload| ==> TouchesOnly(c.payload[i], reserved)
  }

  predicate TameScript(script: seq<Msg>, reserved: Uuid -> bool) {
    forall i :: 0 <= i < |script| ==> Avoids(script[i], reserved)
  }

  predicate Tame(w: World, reserved: Uuid -> bool) {
    && (forall s :: 0 <= s < |w.scripts| ==> TameScript(w.scripts[s], reserved))
    && (forall i :: 0 <= i < |w.queue| ==> TameCommand(w.queue[i], reserved))
  }

  /** And no later filter drops or changes a player-list packet. */
  predicate TameStep(w: World, step: Step, reserved: Uuid -> bool)
    requires Wellformed(w)
  {
    match step
    case Push(c) => TameCommand(c, reserved)
    case RunReconnect(_, connected, _) => connected.Some? ==> TameScript(connected.value, reserved)
    case TakeUpstream(verdict, edited, _) =>
      var r := w.readers[Current(w)];
      r.holds && w.scripts[Current(w)][r.handed].PlayerListMsg? ==>
        !verdict.Drop? && Edited(w.scripts[Current(w)][r.handed], edited) == w.scripts[Current(w)][r.handed]
    case _ => true
  }

  predicate TameRun(cfg: Config, w: World, steps: seq<Step>, reserved: Uuid -> bool)
    requires Wellformed(w)
  {
    steps == [] ||
      (var before := steps[..|steps| - 1];
       TameRun(cfg, w, before, reserved) && TameStep(Run(cfg, w, before), steps[|steps| - 1], reserved))
  }

  ghost predicate MirrorInvariant(w: World, reserved: Uuid -> bool) {
    && Wellformed(w) && Tame(w, reserved)
    && Keyed(w.playerList)
    && (!w.phase.Stopped? ==> Mirrors(w, reserved))
  }

  lemma TakeUpstreamKeepsMirror(
    cfg: Config, w: World, verdict: Verdict, edited: Msg, written: bool, reserved: Uuid -> bool)
    requires cfg.Valid() && MirrorInvariant(w, reserved)
    requires w.phase.Running? && w.readers[Current(w)].holds
    requires TameStep(w, TakeUpstream(verdict, edited, written), reserved)
    ensures MirrorInvariant(TakeFromUpstream(cfg, w, verdict, edited, written), reserved)
  {
    hide ClientTable, Outside, ApplyItems, Keyed;
    var s := Current(w);
    var m := w.scripts[s][w.readers[s].handed];
    assert Avoids(m, reserved) by { assert TameScript(w.scripts[s], reserved); }
    ClientTableAppend(w.out, m);
    ClientTableAppend(w.out, Edited(m, edited));
    if m.PlayerListMsg? {
      ApplyKeepsKeyed(w.playerList, m.list.action, m.list.items);
      ApplyUnreserved(ClientTable(w.out), m.list.action, m.list.items, reserved);
    }
  }

  lemma InjectKeepsMirror(w: World, c: Command, accepted: nat, flushed: bool, reserved: Uuid -> bool)
    requires MirrorInvariant(w, reserved) && c.Inject? && TameCommand(c, reserved) && w.phase.Running?
    ensures MirrorInvariant(DoInject(w, c, accepted, flushed), reserved)
  {
    hide ClientTable, Outside, Keyed;
    var k := if accepted < |c.payload| then accepted else |c.payload|;
    if c.direction == ClientBound {
      ReservedMessages(w.out, c.payload[..k], reserved);
    }
  }

  /** Both player lists are empty after a completed switch, and the client's has been since
      the first packet of the switch block, whatever the order of the range loop and whatever
      filters made of the first packet. */
  lemma SwitchEmptiesBoth(
    cfg: Config, w: World, edited: Msg, order: seq<PlayerListItem>, flushed: bool, reserved: Uuid -> bool)
    requires MirrorInvariant(w, reserved) && w.phase.AwaitJoin? && w.readers[Current(w)].holds
    requires IsEnumeration(w.playerList, order)
    requires w.scripts[Current(w)][0].JoinMsg? && 0x24 in cfg.parsedDown
    ensures var w' := DoSwitch(cfg, w, Pass, edited, order, 6, flushed);
      && w'.playerList == map[]
      && Outside(ClientTable(w'.out), reserved) == map[]
      && w'.out == w.out + SwitchBlock(order, Edited(w.scripts[Current(w)][0], edited).join)
    ensures forall k :: 1 <= k <= 6 ==>
      Outside(ClientTable(w.out + SwitchBlock(order, Edited(w.scripts[Current(w)][0], edited).join)[..k]), reserved)
      == map[]
  {
    hide ClientTable, Outside, IsEnumeration;
    var join := Edited(w.scripts[Current(w)][0], edited).join;
    forall k: nat | 1 <= k <= 6
      ensures Outside(ClientTable(w.out + SwitchBlock(order, join)[..k]), reserved) == map[]
    {
      SwitchBlockEmpties(w.out, order, join, k, w.playerList, reserved);
    }
    assert SwitchBlock(order, join)[..6] == SwitchBlock(order, join);
  }

  lemma SwitchKeepsMirror(
    cfg: Config, w: World, verdict: Verdict, edited: Msg, order: seq<PlayerListItem>, accepted: nat, flushed: bool,
    reserved: Uuid -> bool)
    requires MirrorInvariant(w, reserved) && w.phase.AwaitJoin? && w.readers[Current(w)].holds
    requires IsEnumeration(w.playerList, order)
    ensures MirrorInvariant(DoSwitch(cfg, w, verdict, edited, order, accepted, flushed), reserved)
  {
    hide ClientTable, Outside, IsEnumeration, SwitchBlock;
    if w.scripts[Current(w)][0].JoinMsg? && 0x24 in cfg.parsedDown {
      SwitchEmptiesBoth(cfg, w, edited, order, flushed, reserved);
    }
  }

  lemma ReconnectKeepsMirror(
    w: World, closed: bool, connected: Option<seq<Msg>>, kicked: bool, reserved: Uuid -> bool)
    requires MirrorInvariant(w, reserved) && w.phase.Running?
    requires connected.Some? ==> TameScript(connected.value, reserved)
    ensures MirrorInvariant(DoReconnect(w, closed, connected, kicked), reserved)
  {
    hide ClientTable, Outside, TameScript, Keyed;
  }

  lemma StepKeepsMirror(cfg: Config, w: World, step: Step, reserved: Uuid -> bool)
    requires cfg.Valid() && MirrorInvariant(w, reserved) && TameStep(w, step, reserved)
    ensures MirrorInvariant(Next(cfg, w, step), reserved)
  {
    hide ClientTable, Outside, IsEnumeration, Keyed, TameScript;
    hide TakeFromUpstream, DoInject, DoReconnect, DoSwitch;
    StepKeepsWellformed(cfg, w, step);
    match step
    case TakeUpstream(verdict, edited, written) =>
      if w.phase.Running? && w.readers[Current(w)].holds {
        TakeUpstreamKeepsMirror(cfg, w, verdict, edited, written, reserved);
      }
    case RunInject(accepted, flushed) =>
      if w.phase.Running? && w.queue != [] && w.queue[0].Inject? {
        InjectKeepsMirror(w.(queue := w.queue[1..]), w.queue[0], accepted, flushed, reserved);
      }
    case RunReconnect(closed, connected, kicked) =>
      if w.phase.Running? && w.queue != [] && w.queue[0].Reconnect? {
        ReconnectKeepsMirror(w.(queue := w.queue[1..]), closed, connected, kicked, reserved);
      }
    case TakeJoin(verdict, edited, order, accepted, flushed) =>
      if w.phase.AwaitJoin? && w.readers[Current(w)].holds && IsEnumeration(w.playerList, order) {
        SwitchKeepsMirror(cfg, w, verdict, edited, order, accepted, flushed, reserved);
      }
    case _ =>
  }

  /** In every run in which no later filter drops or changes a player-list packet, after every step until
      the session stops, the proxy's player list is the client's without the injected part. */
  lemma {:induction false} RunKeepsMirror(cfg: Config, w: World, steps: seq<Step>, reserved: Uuid -> bool)
    requires Initial(w) && cfg.Valid() && TameScript(w.scripts[0], reserved)
    requires Wellformed(w) && TameRun(cfg, w, steps, reserved)
    ensures MirrorInvariant(Run(cfg, w, steps), reserved)
    decreases |steps|
  {
    if steps == [] {
      assert Outside(map[], reserved) == map[];
    } else {
      hide MirrorInvariant, Next, TameStep, TameScript;
      RunKeepsMirror(cfg, w, steps[..|steps| - 1], reserved);
      StepKeepsMirror(cfg, Run(cfg, w, steps[..|steps| - 1]), steps[|steps| - 1], reserved);
    }
  }

  // ---- the injected entries --------------------------------------------------------------

  /** Messages about unreserved UUIDs leave the reserved entries of the client as they are. */
  lemma {:induction false} AvoidingMessages(out: seq<Msg>, ms: seq<Msg>, reserved: Uuid -> bool, u: Uuid)
    requires reserved(u) && forall i :: 0 <= i < |ms| ==> Avoids(ms[i], reserved)
    ensures Lookup(ClientTable(out + ms), u) == Lookup(ClientTable(out), u)
    decreases |ms|
  {
    hide ClientTable, ApplyItems;
    if ms == [] {
      assert out + ms == out;
    } else {
      var init, m := ms[..|ms| - 1], ms[|ms| - 1];
      assert out + ms == (out + init) + [m];
      ClientTableAppend(out + init, m);
      AvoidingMessages(out, init, reserved, u);
      if m.PlayerListMsg? {
        EffectIsEntry(ClientTable(out + init), m.list.action, m.list.items, u);
      }
    }
  }

  /** What the session itself writes: its own last packets, or a part of a switch block. */
  lemma SwitchAvoids(w: World, order: seq<PlayerListItem>, join: Join, k: nat, reserved: Uuid -> bool)
    requires MirrorInvariant(w, reserved) && !w.phase.Stopped? && IsEnumeration(w.playerList, order) && k <= 6
    ensures forall i :: 0 <= i < k ==> Avoids(SwitchBlock(order, join)[i], reserved)
  {
    hide ClientTable;
    forall i | 0 <= i < |order| ensures !reserved(order[i].uuid) {
      assert order[i].uuid in w.playerList;
    }
  }

  /** Only injections touch the entries that were injected: relayed packets, switches and
      reconnects, complete or cut off, leave every reserved entry of the client as it was. */
  lemma ReservedEntriesKept(cfg: Config, w: World, step: Step, reserved: Uuid -> bool, u: Uuid)
    requires MirrorInvariant(w, reserved) && TameStep(w, step, reserved) && !w.phase.Stopped?
    requires cfg.Valid() && !step.RunInject? && reserved(u)
    ensures Lookup(ClientTable(Next(cfg, w, step).out), u) == Lookup(ClientTable(w.out), u)
  {
    hide ClientTable, IsEnumeration, Keyed, Mirrors, ApplyItems;
    match step
    case TakeUpstream(verdict, edited, written) =>
      if w.phase.Running? && w.readers[Current(w)].holds {
        var m := w.scripts[Current(w)][w.readers[Current(w)].handed];
        assert TameScript(w.scripts[Current(w)], reserved);
        var sent := if m.Id() in cfg.parsedDown then Edited(m, edited) else m;
        AvoidingMessages(w.out, [sent], reserved, u);
      }
    case RunReconnect(closed, connected, kicked) => AvoidingMessages(w.out, [KickMsg], reserved, u);
    case TakeJoin(verdict, edited, order, accepted, flushed) =>
      if w.phase.AwaitJoin? && w.readers[Current(w)].holds && IsEnumeration(w.playerList, order)
         && w.scripts[Current(w)][0].JoinMsg? {
        var block := SwitchBlock(order, Edited(w.scripts[Current(w)][0], edited).join);
        SwitchAvoids(w, order, Edited(w.scripts[Current(w)][0], edited).join, 6, reserved);
        var k := if accepted < 6 then accepted else 6;
        assert block[..6] == block;
        AvoidingMessages(w.out, block[..k], reserved, u);
      }
    case _ =>
  }

  /** When a later filter does drop one, the mirror survives exactly if no item of the packet
      that is the last of its UUID says anything the proxy's list does not have. */
  lemma DroppedPlayerListExactly(cfg: Config, w: World, edited: Msg, written: bool, reserved: Uuid -> bool)
    requires cfg.Valid() && MirrorInvariant(w, reserved)
    requires w.phase.Running? && w.readers[Current(w)].holds
    requires w.scripts[Current(w)][w.readers[Current(w)].handed].PlayerListMsg?
    ensures var p := w.scripts[Current(w)][w.readers[Current(w)].handed].list;
      Mirrors(TakeFromUpstream(cfg, w, Drop, edited, written), reserved) <==>
        forall i :: 0 <= i < |p.items| && IsLast(p.items, i) ==> SaysNothingNew(w.playerList, p.action, p.items[i])
  {
    hide ClientTable, Outside, ApplyItems, IsLast, SaysNothingNew;
    var p := w.scripts[Current(w)][w.readers[Current(w)].handed].list;
    ChangesNothingExactly(w.playerList, p.action, p.items);
  }

  predicate Names(p: PlayerList, u: Uuid) {
    LastNaming(p.items, u) >= 0
  }

  /** When a later filter changes one, the mirror survives exactly if for every unreserved UUID
      that either packet names, the last items naming it come to the same entry. */
  lemma EditedPlayerListExactly(cfg: Config, w: World, edited: Msg, reserved: Uuid -> bool)
    requires cfg.Valid() && MirrorInvariant(w, reserved)
    requires w.phase.Running? && w.readers[Current(w)].holds
    requires w.scripts[Current(w)][w.readers[Current(w)].handed].PlayerListMsg? && edited.PlayerListMsg?
    ensures var p, q, t := w.scripts[Current(w)][w.readers[Current(w)].handed].list, edited.list, w.playerList;
      Mirrors(TakeFromUpstream(cfg, w, Pass, edited, true), reserved) <==>
        forall u :: !reserved(u) && (Names(p, u) || Names(q, u)) ==>
          Effect(Lookup(t, u), p.action, p.items, u) == Effect(Lookup(t, u), q.action, q.items, u)
  {
    hide ClientTable, ApplyItems;
    var m := w.scripts[Current(w)][w.readers[Current(w)].handed];
    var p, q, t := m.list, edited.list, w.playerList;
    var client := ClientTable(w.out);
    ClientTableAppend(w.out, edited);
    assert TameScript(w.scripts[Current(w)], reserved);
    ApplyUnreserved(client, p.action, p.items, reserved);
    var mine, theirs := ApplyItems(t, p.action, p.items), ApplyItems(client, q.action, q.items);
    assert mine == Outside(ApplyItems(client, p.action, p.items), reserved);
    forall u
      ensures Lookup(mine, u) == Effect(Lookup(t, u), p.action, p.items, u)
      ensures Lookup(theirs, u) == Effect(Lookup(client, u), q.action, q.items, u)
      ensures !reserved(u) ==> Lookup(t, u) == Lookup(client, u)
      ensures reserved(u) ==> Lookup(mine, u) == None
    {
      EffectIsEntry(t, p.action, p.items, u);
      EffectIsEntry(client, q.action, q.items, u);
    }
    hide LastNaming, ItemEffect;
    OutsideAgrees(theirs, mine, reserved);
  }

  lemma OutsideAgrees(a: Table, b: Table, reserved: Uuid -> bool)
    requires forall u :: reserved(u) ==> Lookup(b, u) == None
    ensures Outside(a, reserved) == b <==> forall u :: !reserved(u) ==> Lookup(a, u) == Lookup(b, u)
  {
    var outside := Outside(a, reserved);
    forall u ensures Lookup(outside, u) == if reserved(u) then None else Lookup(a, u) {
    }
    if forall u :: !reserved(u) ==> Lookup(a, u) == Lookup(b, u) {
      SameLookups(outside, b);
    }
  }

  /** The switch never waits for want of an order: every keyed table can be enumerated. */
  lemma {:induction false} EnumerationExists(t: Table) returns (order: seq<PlayerListItem>)
    requires Keyed(t)
    ensures IsEnumeration(t, order)
    decreases |t|
  {
    if t == map[] {
      order := [];
    } else {
      var u :| u in t;
      var rest := EnumerationExists(t - {u});
      order := rest + [t[u]];
      EnumerationExtends(t, u, rest);
    }
  }

  lemma EnumerationExtends(t: Table, u: Uuid, rest: seq<PlayerListItem>)
    requires Keyed(t) && u in t && IsEnumeration(t - {u}, rest)
    ensures IsEnumeration(t, rest + [t[u]])
  {
    var order := rest + [t[u]];
    forall i | 0 <= i < |order| ensures order[i].uuid in t && t[order[i].uuid] == order[i] {
      if i < |rest| {
        assert rest[i].uuid in t - {u};
      }
    }
    forall i, j | 0 <= i < j < |order| ensures order[i].uuid != order[j].uuid {
      assert rest[i].uuid in t - {u};
    }
    forall v | v in t ensures exists i :: 0 <= i < |order| && order[i].uuid == v {
      if v == u {
        assert order[|rest|].uuid == v;
      } else {
        assert v in t - {u};
        var i :| 0 <= i < |rest| && rest[i].uuid == v;
        assert order[i].uuid == v;
      }
    }
  }
}
