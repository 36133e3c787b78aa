/** The main-loop side of a connection: handler.go, commands.go and the player list filter of
    filters.go as they change the handler's fields, each proved against the step it is in the
    session machine. */
module Handler {
  import opened Common
  import opened PlayPackets
  import opened PlayerTable
  import opened Messages
  import opened Filters
  import S = Session
  import SessionMirror

  const PLAYER_LIST_ID := 0x32
  const CLIENT_SETTINGS_ID := 0x05
  const PLUGIN_MESSAGE_ID := 0x0B

  /** A verdict, and the packet as it was left. */
  datatype Decision = Decision(verdict: Verdict, left: Msg)

  /** A packet filter: the one this package registers, or any other, which may edit the packet. */
  datatype Filter = SavePlayerList | Custom(decide: Msg -> Decision) {
    function Apply(m: Msg): Decision {
      if SavePlayerList? then Decision(Pass, m)
      else Decision(decide(m).verdict, Edited(m, decide(m).left))
    }
  }

  /** What one filter may say of a packet. */
  predicate Says(f: Filter, m: Msg, v: Verdict, left: Msg) {
    match f
    case SavePlayerList => v == Pass && left == m
    case Custom(decide) => v == decide(m).verdict && left == Edited(m, decide(m).left)
  }

  /** The packets the filters were shown, one after another: each passed what the next was shown,
      and the k-th objected, if there is one, or all of them passed. */
  ghost predicate Dispatched(bucket: seq<Filter>, m: Msg, shown: seq<Msg>, v: Verdict, left: Msg) {
    && 1 <= |shown| <= |bucket| + 1 && shown[0] == m
    && (forall j :: 0 <= j < |shown| - 1 ==> Says(bucket[j], shown[j], Pass, shown[j + 1]))
    && if |shown| <= |bucket| then !v.Pass? && Says(bucket[|shown| - 1], shown[|shown| - 1], v, left)
       else v.Pass? && left == shown[|shown| - 1]
  }

  lemma {:induction false} DecideIsDispatch(bucket: seq<Filter>, m: Msg) returns (shown: seq<Msg>)
    ensures Dispatched(bucket, m, shown, Decide(bucket, m).verdict, Decide(bucket, m).left)
    decreases |bucket|
  {
    hide Edited;
    shown := [m];
    if bucket != [] {
      var d := bucket[0].Apply(m);
      if d.verdict.Pass? {
        var rest := DecideIsDispatch(bucket[1..], d.left);
        shown := [m] + rest;
        forall j | 0 <= j < |shown| - 1 ensures Says(bucket[j], shown[j], Pass, shown[j + 1]) {
          if j > 0 {
            assert Says(bucket[1..][j - 1], rest[j - 1], Pass, rest[j]);
          }
        }
      }
    }
  }

  /** dispatchPacket ends at the first filter that does not return nil. */
  function Decide(bucket: seq<Filter>, m: Msg): (r: Decision)
    ensures SameType(m, r.left)
  {
    if bucket == [] then Decision(Pass, m)
    else
      var d := bucket[0].Apply(m);
      if d.verdict.Pass? then Decide(bucket[1..], d.left) else d
  }

  /** An edited packet is shown to the filters after the one that edited it, as edited. */
  lemma {:induction false} DecideAppend(before: seq<Filter>, after: seq<Filter>, m: Msg)
    ensures Decide(before + after, m) ==
      if Decide(before, m).verdict.Pass? then Decide(after, Decide(before, m).left) else Decide(before, m)
    decreases |before|
  {
    if before == [] {
      assert before + after == after;
    } else {
      assert (before + after)[1..] == before[1..] + after;
      DecideAppend(before[1..], after, before[0].Apply(m).left);
    }
  }

  /** A packet writer at the level of whole packets, with the sticky error of packetWriter;
      MsgWire.dfy shows that the writer of frames keeps this contract. */
  class MsgWriter {
    var out: seq<Msg>
    var err: bool

    method WritePacket(m: Msg) returns (ok: bool)
      modifies this
      ensures ok == !err
      ensures out == if ok then old(out) + [m] else old(out)
      ensures old(err) ==> err
    {
      var fails := *;
      err := err || fails;
      if !err {
        out := out + [m];
      }
      ok := !err;
    }

    method Flush() returns (ok: bool)
      modifies `err
      ensures ok == !err
      ensures old(err) ==> err
    {
      var fails := *;
      err := err || fails;
      ok := !err;
    }
  }

  /** savePlayerList is registered first in the bucket of the player list packet, and in no
      other place. */
  ghost predicate SavesFirst(registry: Registry<Filter>)
    requires registry.Valid()
    reads registry, registry.packetFilters, registry.packetsParsed, registry.packetsParsed.words
  {
    && registry.packetFilters[Slot(ClientBound, PLAYER_LIST_ID)] != []
    && forall i, k :: 0 <= i < registry.packetFilters.Length && 0 <= k < |registry.packetFilters[i]| ==>
         (registry.packetFilters[i][k].SavePlayerList? <==> i == Slot(ClientBound, PLAYER_LIST_ID) && k == 0)
  }

  /** The package's init function: its own filters come before any other. */
  method InitFilters() returns (registry: Registry<Filter>)
    ensures fresh(registry) && fresh(registry.packetFilters) && fresh(registry.packetsParsed.words)
    ensures registry.Valid() && SavesFirst(registry)
    // client settings, plugin messages and player lists are filtered, nothing else
    ensures forall i :: 0 <= i < registry.packetFilters.Length ==>
      (registry.packetFilters[i] != [] <==> i in {0x05, 0x0B, 256 + 0x32})
  {
    registry := new Registry<Filter>();
    var saveClientSettings := Custom(m => Decision(Pass, m));
    registry.Register(ServerBound, CLIENT_SETTINGS_ID, saveClientSettings);
    registry.Register(ServerBound, PLUGIN_MESSAGE_ID, saveClientSettings);
    registry.Register(ClientBound, PLAYER_LIST_ID, SavePlayerList);
  }

  /** Filters registered later keep it so. */
  method RegisterLater(registry: Registry<Filter>, direction: Direction, id: nat, decide: Msg -> Decision)
    requires registry.Valid() && SavesFirst(registry) && id < MAX_PACKET_ID
    modifies registry.packetFilters, registry.packetsParsed.words
    ensures registry.Valid() && SavesFirst(registry)
    ensures registry.packetFilters[Slot(direction, id)]
            == old(registry.packetFilters[Slot(direction, id)]) + [Custom(decide)]
  {
    registry.Register(direction, id, Custom(decide));
  }

  class Handler {
    const registry: Registry<Filter>
    const downstream: MsgWriter
    var playerList: Table

    constructor (registry: Registry<Filter>, downstream: MsgWriter)
      ensures this.registry == registry && this.downstream == downstream && playerList == map[]
    {
      this.registry, this.downstream, playerList := registry, downstream, map[];
    }

    ghost predicate Valid()
      reads this, registry, registry.packetFilters, registry.packetsParsed, registry.packetsParsed.words
    {
      registry.Valid() && SavesFirst(registry)
    }

    function Bucket(direction: Direction, id: nat): seq<Filter>
      requires registry.Valid() && id < MAX_PACKET_ID
      reads registry, registry.packetFilters, registry.packetsParsed, registry.packetsParsed.words
    {
      registry.packetFilters[Slot(direction, id)]
    }

    /** The loop over the items with the change the action asks for. */
    method UpdatePlayerListItem(action: int, items: seq<PlayerListItem>)
      requires action != ADD_PLAYER && action != REMOVE_PLAYER
      modifies `playerList
      ensures playerList == ApplyItems(old(playerList), action, items)
    {
      for i := 0 to |items|
        invariant playerList == ApplyItems(old(playerList), action, items[..i])
      {
        ApplyItemsAppend(old(playerList), action, items[..i], items[i]);
        assert items[..i + 1] == items[..i] + [items[i]];
        var item := items[i];
        if item.uuid !in playerList {
          continue;
        }
        var savedItem := playerList[item.uuid];
        savedItem := Updated(action, savedItem, item);
        playerList := playerList[item.uuid := savedItem];
      }
      assert items[..|items|] == items;
    }

    /** The filter savePlayerList. */
    method SavePlayerListFilter(p: PlayerList)
      modifies `playerList
      ensures playerList == ApplyList(old(playerList), p)
    {
      if p.action == ADD_PLAYER || p.action == REMOVE_PLAYER {
        for i := 0 to |p.items|
          invariant playerList == ApplyItems(old(playerList), p.action, p.items[..i])
        {
          ApplyItemsAppend(old(playerList), p.action, p.items[..i], p.items[i]);
          assert p.items[..i + 1] == p.items[..i] + [p.items[i]];
          if p.action == ADD_PLAYER {
            playerList := playerList[p.items[i].uuid := p.items[i]];
          } else {
            playerList := playerList - {p.items[i].uuid};
          }
        }
        assert p.items[..|p.items|] == p.items;
      } else if p.action in {UPDATE_GAME_MODE, UPDATE_LATENCY, UPDATE_DISPLAY_NAME} {
        UpdatePlayerListItem(p.action, p.items);
      } else {
        UnknownActionKeeps(playerList, p.action, p.items);
      }
    }

    static lemma {:induction false} UnknownActionKeeps(t: Table, action: int, items: seq<PlayerListItem>)
      requires action !in {ADD_PLAYER, REMOVE_PLAYER, UPDATE_GAME_MODE, UPDATE_LATENCY, UPDATE_DISPLAY_NAME}
      ensures ApplyItems(t, action, items) == t
      decreases |items|
    {
      if items != [] {
        var v := items[0];
        assert v.uuid in t ==> t[v.uuid := t[v.uuid]] == t;
        UnknownActionKeeps(t, action, items[1..]);
      }
    }

    /** dispatchPacket: runs the bucket of the packet until a filter objects. The filters share
        the packet; savePlayerList sees it before any other can edit it. */
    method DispatchPacket(m: Msg, direction: Direction) returns (v: Verdict, left: Msg)
      requires Valid() && 0 <= m.Id() < MAX_PACKET_ID
      requires m.Id() == PLAYER_LIST_ID && direction == ClientBound ==> m.PlayerListMsg?
      modifies `playerList
      ensures Decision(v, left) == Decide(Bucket(direction, m.Id()), m)
      ensures exists shown :: Dispatched(Bucket(direction, m.Id()), m, shown, v, left)
      ensures playerList ==
        if direction == ClientBound && m.PlayerListMsg?
        then ApplyMsg(old(playerList), m) else old(playerList)
    {
      var bucket := registry.packetFilters[Slot(direction, m.Id())];
      ghost var shown := DecideIsDispatch(bucket, m);
      left := m;
      for k := 0 to |bucket|
        invariant SameType(m, left) && (k == 0 ==> left == m)
        invariant Decide(bucket, m) == Decide(bucket[k..], left)
        invariant playerList ==
          if direction == ClientBound && m.PlayerListMsg? && k > 0
          then ApplyMsg(old(playerList), m) else old(playerList)
      {
        assert bucket[k..][0] == bucket[k] && bucket[k..][1..] == bucket[k + 1..];
        match bucket[k] {
          case SavePlayerList =>
            assert Slot(direction, m.Id()) == Slot(ClientBound, PLAYER_LIST_ID);
            SavePlayerListFilter(left.list);
          case Custom(decide) =>
            assert direction == ClientBound && m.PlayerListMsg? ==> k > 0;
            var d := bucket[k].Apply(left);
            v, left := d.verdict, d.left;
            if !v.Pass? {
              return;
            }
        }
      }
      v := Pass;
    }

    /** handlePacket: a raw packet is forwarded without asking any filter, any other as its
        filters left it. */
    method HandlePacket(m: Msg, isRaw: bool, direction: Direction, writer: MsgWriter) returns (ok: bool)
      requires Valid() && 0 <= m.Id() < MAX_PACKET_ID
      requires m.Id() == PLAYER_LIST_ID && direction == ClientBound ==> m.PlayerListMsg?
      modifies `playerList, writer
      ensures var d := if isRaw then Decision(Pass, m) else Decide(Bucket(direction, m.Id()), m);
        && (d.verdict.Fail? ==> !ok && writer.out == old(writer.out))
        && (d.verdict.Drop? ==> ok && writer.out == old(writer.out))
        && (d.verdict.Pass? ==> writer.out == if ok then old(writer.out) + [d.left] else old(writer.out))
        && (d.verdict.Pass? && ok ==> !writer.err)
      // a packet that a filter drops or refuses is not written, any other as the last edit left it
      ensures !isRaw ==> exists shown, v, left ::
        && Dispatched(Bucket(direction, m.Id()), m, shown, v, left)
        && writer.out == (if v.Pass? && ok then old(writer.out) + [left] else old(writer.out))
        && (v.Drop? ==> ok) && (v.Fail? ==> !ok)
      ensures playerList ==
        if !isRaw && direction == ClientBound && m.PlayerListMsg?
        then ApplyMsg(old(playerList), m) else old(playerList)
    {
      var drop, packet := false, m;
      if !isRaw {
        var v;
        v, packet := DispatchPacket(m, direction);
        match v {
          case Pass =>
          case Drop => drop := true;
          case Fail => return false;
        }
      }
      if !drop {
        ok := writer.WritePacket(packet);
        return;
      }
      return true;
    }

    /** The fast path: asking the bit and forwarding raw packets unasked has the same effect as
        parsing and dispatching every packet. */
    method HandleAsRead(m: Msg, direction: Direction, writer: MsgWriter) returns (ok: bool)
      requires Valid() && 0 <= m.Id() < MAX_PACKET_ID
      requires m.Id() == PLAYER_LIST_ID && direction == ClientBound ==> m.PlayerListMsg?
      modifies `playerList, writer
      ensures var d := Decide(Bucket(direction, m.Id()), m);
        && (d.verdict.Fail? ==> !ok && writer.out == old(writer.out))
        && (d.verdict.Drop? ==> ok && writer.out == old(writer.out))
        && (d.verdict.Pass? ==> writer.out == if ok then old(writer.out) + [d.left] else old(writer.out))
      ensures playerList ==
        if direction == ClientBound && m.PlayerListMsg?
        then ApplyMsg(old(playerList), m) else old(playerList)
    {
      var shouldParse := registry.ShouldParse(direction, m.Id());
      ok := HandlePacket(m, !shouldParse, direction, writer);
    }

    /** The main loop takes a packet of the current upstream: one TakeUpstream step. */
    method TakeUpstream(m: Msg, ghost cfg: S.Config, ghost w: S.World) returns (ok: bool)
      requires Valid() && 0 <= m.Id() < MAX_PACKET_ID
      requires m.Id() == PLAYER_LIST_ID ==> m.PlayerListMsg?
      requires forall id :: 0 <= id < MAX_PACKET_ID ==>
        (id in cfg.parsedDown <==> Bucket(ClientBound, id) != [])
      requires S.Wellformed(w) && w.phase.Running? && w.readers[S.Current(w)].holds
      requires m == w.scripts[S.Current(w)][w.readers[S.Current(w)].handed]
      requires w.out == downstream.out && w.playerList == playerList
      modifies `playerList, downstream
      ensures var d := Decide(old(Bucket(ClientBound, m.Id())), m);
        var w' := S.TakeFromUpstream(cfg, w, d.verdict, d.left, ok);
        && w'.out == downstream.out
        && w'.playerList == playerList
        && (w'.phase.Stopped? <==> !ok)
    {
      ok := HandleAsRead(m, ClientBound, downstream);
    }

    /** The main loop takes a packet of the client: one TakeClient step. What the step enters
        into the upward history is what the upstream's writer gained. */
    method TakeClient(m: Msg, upstream: MsgWriter, ghost cfg: S.Config, ghost w: S.World) returns (ok: bool)
      requires Valid() && 0 <= m.Id() < MAX_PACKET_ID
      requires forall id :: 0 <= id < MAX_PACKET_ID ==>
        (id in cfg.parsedUp <==> Bucket(ServerBound, id) != [])
      requires S.Wellformed(w) && w.phase.Running? && w.client.holds
      requires m == w.clientScript[w.client.handed]
      requires w.playerList == playerList
      modifies `playerList, upstream
      ensures var d := Decide(old(Bucket(ServerBound, m.Id())), m);
        var w' := S.TakeFromClient(cfg, w, d.verdict, d.left, ok);
        && w'.playerList == playerList
        && (w'.phase.Stopped? <==> !ok)
        && upstream.out == old(upstream.out) + SentBy(w'.up[|w.up|..])
    {
      ok := HandleAsRead(m, ServerBound, upstream);
    }

    /** The packets of the client that these events wrote to the upstream. */
    static function SentBy(up: seq<S.UpEvent>): seq<Msg> {
      if up == [] then []
      else SentBy(up[..|up| - 1]) + if up[|up| - 1].SentUp? then [up[|up| - 1].sent] else []
    }

    /** The values of the player list, in any order the range loop may take. */
    method Values() returns (values: seq<PlayerListItem>)
      requires Keyed(playerList)
      ensures IsEnumeration(playerList, values)
    {
      values := [];
      var left := playerList.Keys;
      while left != {}
        invariant left <= playerList.Keys
        invariant IsEnumeration(playerList - left, values)
        decreases |left|
      {
        var u :| u in left;
        ExtendEnumeration(playerList, left, u, values);
        values := values + [playerList[u]];
        left := left - {u};
      }
      assert playerList - {} == playerList;
    }

    static lemma ExtendEnumeration(t: Table, left: set<Uuid>, u: Uuid, values: seq<PlayerListItem>)
      requires Keyed(t) && u in left && left <= t.Keys && IsEnumeration(t - left, values)
      ensures IsEnumeration(t - (left - {u}), values + [t[u]])
    {
      var t', order := t - (left - {u}), values + [t[u]];
      forall i | 0 <= i < |order| ensures order[i].uuid in t' && t'[order[i].uuid] == order[i] {
        if i < |values| { assert values[i].uuid in t - left; }
      }
      forall i, j | 0 <= i < j < |order| ensures order[i].uuid != order[j].uuid {
        assert values[i].uuid in t - left;
      }
      forall v | v in t' ensures exists i :: 0 <= i < |order| && order[i].uuid == v {
        if v == u {
          assert order[|values|].uuid == v;
        } else {
          assert v in t - left;
          var i :| 0 <= i < |values| && values[i].uuid == v;
          assert order[i].uuid == v;
        }
      }
    }

    /** Write packet k of a block. */
    method Send(m: Msg, ghost start: seq<Msg>, ghost block: seq<Msg>, ghost k: nat)
      returns (ok: bool, ghost k': nat)
      requires k < |block| && block[k] == m
      requires downstream.out == start + block[..k]
      modifies downstream
      ensures k' == if ok then k + 1 else k
      ensures downstream.out == start + block[..k']
      ensures ok == !downstream.err
    {
      ok := downstream.WritePacket(m);
      k' := if ok then k + 1 else k;
      assert block[..k + 1] == block[..k] + [block[k]];
    }

    /** SendDimensionSwitch: writes the switch block until a write fails. */
    method SendDimensionSwitch(join: Join) returns (ok: bool, ghost order: seq<PlayerListItem>, ghost k: nat)
      requires Keyed(playerList)
      modifies `playerList, downstream
      ensures IsEnumeration(old(playerList), order)
      ensures k <= 6 && downstream.out == old(downstream.out) + SwitchBlock(order, join)[..k]
      ensures ok ==> k == 6 && !downstream.err
      ensures ok ==> exists block :: LeadsInto(block, join) && downstream.out == old(downstream.out) + block
      ensures playerList == if k >= 1 then map[] else old(playerList)
    {
      hide IsEnumeration, Keyed, LeadsInto;
      ghost var start := downstream.out;
      var values := Values();
      order, k := values, 0;
      ghost var block := SwitchBlock(order, join);
      assert start + block[..0] == start;

      ok, k := Send(PlayerListMsg(PlayerList(REMOVE_PLAYER, values)), start, block, k);
      if !ok { return; }
      playerList := map[];
      ok, k := Send(TitleMsg(EMPTY_TEXT, EMPTY_TEXT), start, block, k);
      if !ok { return; }
      var away := join.dimensionId;
      if join.dimensionId == "minecraft:overworld" {
        away := "minecraft:the_end";
      }
      ok, k := Send(RespawnMsg(away, join.gameMode, join.fields), start, block, k);
      if !ok { return; }
      ok, k := Send(JoinMsg(join), start, block, k);
      if !ok { return; }
      ok, k := Send(RespawnMsg(join.dimensionId, join.gameMode, join.fields), start, block, k);
      if !ok { return; }
      ok, k := Send(GameStateMsg(3, join.gameMode), start, block, k);
      if !ok { return; }
      ok := downstream.Flush();
      SwitchLeadsInto(values, join);
      assert block[..6] == block;
    }

    /** ReconnectCommand.Execute from the hijacked first packet on: one TakeJoin step. */
    method TakeJoin(m: Msg, isRaw: bool, ghost cfg: S.Config, ghost w: S.World)
      returns (ok: bool, ghost order: seq<PlayerListItem>, ghost accepted: nat)
      requires Valid() && 0 <= m.Id() < MAX_PACKET_ID && Keyed(playerList)
      requires isRaw <==> m.Id() !in cfg.parsedDown
      requires m.Id() == PLAYER_LIST_ID ==> m.PlayerListMsg?
      requires S.Wellformed(w) && w.phase.AwaitJoin? && w.readers[S.Current(w)].holds
      requires m == w.scripts[S.Current(w)][w.readers[S.Current(w)].handed]
      requires w.out == downstream.out && w.playerList == playerList
      modifies `playerList, downstream
      ensures IsEnumeration(w.playerList, order)
      ensures var d := Decide(old(Bucket(ClientBound, m.Id())), m);
        var w' := S.DoSwitch(cfg, w, d.verdict, d.left, order, accepted, ok);
        && w'.out == downstream.out
        && w'.playerList == playerList
        && (w'.phase.Running? <==> ok)
      ensures ok ==> m.JoinMsg? && !isRaw && exists shown, left, block ::
        && Dispatched(old(Bucket(ClientBound, m.Id())), m, shown, Pass, left) && left.JoinMsg?
        && LeadsInto(block, left.join) && downstream.out == old(downstream.out) + block
    {
      hide IsEnumeration, Keyed, LeadsInto, Dispatched;
      accepted := 0;
      if isRaw || !m.JoinMsg? {
        order := SessionMirror.EnumerationExists(playerList);
        return false, order, 0;
      }
      var v, left := DispatchPacket(m, ClientBound);
      if !v.Pass? {
        order := SessionMirror.EnumerationExists(playerList);
        return false, order, 0;
      }
      ok, order, accepted := SendDimensionSwitch(left.join);
      assert SwitchBlock(order, left.join)[..6] == SwitchBlock(order, left.join);
    }

    /** ReconnectCommand.Execute up to the wait for the first packet: one RunReconnect step. `closes`
        and `connects` are what closing the old connection and connectUpstream come to, and
        `script` is what the new upstream will send. */
    method ExecuteReconnect(closes: bool, connects: bool, ghost script: seq<Msg>, ghost w: S.World)
      returns (ok: bool, ghost kicked: bool)
      requires S.Wellformed(w) && w.phase.Running?
      requires w.out == downstream.out && w.playerList == playerList
      modifies downstream
      ensures ok <==> closes && connects
      ensures downstream.out ==
        if closes && !connects && kicked then old(downstream.out) + [KickMsg] else old(downstream.out)
      ensures var w' := S.DoReconnect(w, closes, if connects then Some(script) else None, kicked);
        && w'.out == downstream.out
        && w'.playerList == playerList
        && (w'.phase.AwaitJoin? <==> ok) && (w'.phase.Stopped? <==> !ok)
    {
      kicked := false;
      if !closes {
        return false, kicked;
      }
      if !connects {
        var wrote := downstream.WritePacket(KickMsg);
        kicked := wrote;
        return false, kicked;
      }
      ok := true;
    }

    /** injectPacketCommand.Execute in either direction: one RunInject step. */
    method ExecuteInject(direction: Direction, payload: seq<Msg>, raises: bool, upstream: MsgWriter, ghost w: S.World)
      returns (ok: bool, ghost accepted: nat)
      requires S.Wellformed(w) && w.phase.Running? && w.out == downstream.out && upstream != downstream
      modifies downstream, upstream
      ensures accepted <= |payload|
      ensures var writer := if direction == ClientBound then downstream else upstream;
        var w' := S.DoInject(w, S.Inject(direction, payload, raises), accepted, !writer.err);
        && w'.out == downstream.out
        && w'.playerList == w.playerList
        && (w'.phase.Running? <==> ok)
        && (direction == ServerBound ==>
              && upstream.out == old(upstream.out) + payload[..accepted]
              && w'.up == w.up + [S.InjectedUp(S.Current(w), payload[..accepted])])
        && (direction == ClientBound ==> upstream.out == old(upstream.out) && upstream.err == old(upstream.err))
        && (direction == ServerBound ==> downstream.err == old(downstream.err))
    {
      var writer := upstream;
      match direction {
        case ServerBound =>
        case ClientBound => writer := downstream;
      }
      ok, accepted := InjectAll(writer, payload, raises);
    }

    static method InjectAll(writer: MsgWriter, payload: seq<Msg>, raises: bool)
      returns (ok: bool, ghost accepted: nat)
      modifies writer
      ensures accepted <= |payload| && writer.out == old(writer.out) + payload[..accepted]
      ensures ok <==> accepted == |payload| && !writer.err && !raises
    {
      accepted := 0;
      for i := 0 to |payload|
        invariant accepted <= i
        invariant !writer.err ==> accepted == i
        invariant writer.out == old(writer.out) + payload[..accepted]
      {
        var wrote := writer.WritePacket(payload[i]);
        if wrote {
          assert payload[..i + 1] == payload[..i] + [payload[i]];
          accepted := i + 1;
        }
      }
      var flushed := writer.Flush();
      ok := flushed && !raises;
    }
  }
}
