/** filters/tab/tablist.go: a table of 80 cells kept on the client by incremental updates.

    A full update does not carry the cells: its packet points to the live array, which the main
    loop reads when it serializes the packet, cell by cell, while the owner goes on changing
    it. */
module TabList {
  import opened Common
  import opened Messages
  import opened Wire
  import opened PlayPackets
  import opened PlayerTable

  const CELLS := 80
  const ROWS := 20
  const MAX_DISPLAY_NAME := 64
  const TOO_LONG: seq<byte> :=
    [123, 34, 116, 101, 120, 116, 34, 58, 34, 84, 79, 79, 95, 76, 79, 78, 71, 95, 83, 84, 82, 34, 125]
  const EMPTY_NAME: seq<byte> := [123, 34, 116, 101, 120, 116, 34, 58, 34, 34, 125]

  /** 00000000-0000-%04d-0000-000000000000: the decimal digits of i in bytes 6 and 7. */
  function CellUuid(i: nat): (u: seq<byte>)
    requires i < CELLS
    ensures |u| == 16
  {
    [0, 0, 0, 0, 0, 0, 0, i / 10 * 16 + i % 10, 0, 0, 0, 0, 0, 0, 0, 0]
  }

  lemma CellUuidsDiffer(i: nat, j: nat)
    requires i < CELLS && j < CELLS && i != j
    ensures CellUuid(i) != CellUuid(j)
  {
    assert CellUuid(i)[7] == i / 10 * 16 + i % 10;
    assert CellUuid(j)[7] == j / 10 * 16 + j % 10;
  }

  datatype Title = Title(header: string, footer: string)

  /** A queued packet: all cells, by reference, or changes, by value, or a title. */
  datatype Queued =
    | Full
    | Names(items: seq<PlayerListItem>)
    | Pings(items: seq<PlayerListItem>)
    | TitleBar(bar: Title)

  /** The fields of a TabList. */
  datatype Local = Local(
    cells: seq<PlayerListItem>,
    sendFull: bool,
    changedNames: seq<PlayerListItem>,
    changedPings: seq<PlayerListItem>,
    title: Option<Title>
  )

  predicate CellsOk(cells: seq<PlayerListItem>) {
    |cells| == CELLS && forall i :: 0 <= i < CELLS ==> cells[i].uuid == CellUuid(i)
  }

  // ---- the setters and Flush as functions ------------------------------------------------

  function WithProperties(l: Local, i: nat, properties: seq<AuthProperty>): Local
    requires i < |l.cells|
  {
    if l.cells[i].properties == properties then l
    else l.(cells := l.cells[i := l.cells[i].(properties := properties)], sendFull := true)
  }

  function WithPing(l: Local, i: nat, ping: int32): Local
    requires i < |l.cells|
  {
    if l.cells[i].ping == ping then l
    else
      var cell := l.cells[i].(ping := ping);
      l.(cells := l.cells[i := cell], changedPings := l.changedPings + [cell])
  }

  function WithName(l: Local, i: nat, text: seq<byte>): Local
    requires i < |l.cells|
  {
    var name := if |text| > MAX_DISPLAY_NAME then TOO_LONG else text;
    if l.cells[i].displayName == name then l
    else
      var cell := l.cells[i].(displayName := name);
      l.(cells := l.cells[i := cell], changedNames := l.changedNames + [cell])
  }

  function WithTitle(l: Local, title: Title): Local {
    l.(title := Some(title))
  }

  /** The player-list packets one Flush hands over. */
  function Lists(l: Local): seq<Queued> {
    if l.sendFull then [Full]
    else (if l.changedNames != [] then [Names(l.changedNames)] else [])
         + (if l.changedPings != [] then [Pings(l.changedPings)] else [])
  }

  /** All packets one Flush hands over. */
  function Pending(l: Local): seq<Queued> {
    Lists(l) + if l.title.Some? then [TitleBar(l.title.value)] else []
  }

  function Flushed(l: Local): Local {
    l.(sendFull := false, changedNames := [], changedPings := [], title := None)
  }

  /** The packet a queued update is; a full one with the cells as they were read. */
  function TabMessage(q: Queued, serialized: seq<PlayerListItem>): Msg {
    match q
    case Full => PlayerListMsg(PlayerList(ADD_PLAYER, serialized))
    case Names(items) => PlayerListMsg(PlayerList(UPDATE_DISPLAY_NAME, items))
    case Pings(items) => PlayerListMsg(PlayerList(UPDATE_LATENCY, items))
    case TitleBar(bar) => TitleMsg(bar.header, bar.footer)
  }

  // ---- the machine -----------------------------------------------------------------------

  /** The tab list, the packets on their way, how much of a full packet at the head of the
      queue has been serialized, and the client, which also receives what others send it. `lost`
      records that a flush with player-list packets was refused, or that a packet of someone else
      named a cell, and no full update has been accepted since. */
  datatype State = State(
    local: Local, queue: seq<Queued>, serialized: seq<PlayerListItem>, client: Table, lost: bool,
    clientTitle: Option<Title>)

  datatype Step =
    | SetProperties(i: nat, properties: seq<AuthProperty>)
    | SetPing(i: nat, ping: int32)
    | SetName(i: nat, text: seq<byte>)
    | SetTitle(title: Title)
    | Flush(accepted: bool)
    | SerializeCell       // the next cell of a full packet
    | Deliver             // the packet at the head reaches the client
    | OtherPacket(m: Msg) // a packet of an upstream, of a switch or of another command does

  function DoFlush(st: State, accepted: bool): State {
    var packets := Pending(st.local);
    var st' := st.(local := Flushed(st.local));
    if packets == [] then st'
    else if accepted then st'.(queue := st.queue + packets, lost := st.lost && !st.local.sendFull)
    else st'.(lost := st.lost || Lists(st.local) != [])
  }

  function DoDeliver(st: State): State
    requires st.queue != []
  {
    var rest := st.(queue := st.queue[1..], serialized := []);
    match st.queue[0]
    case Full => rest.(client := ApplyItems(st.client, ADD_PLAYER, st.serialized))
    case Names(items) => rest.(client := ApplyItems(st.client, UPDATE_DISPLAY_NAME, items))
    case Pings(items) => rest.(client := ApplyItems(st.client, UPDATE_LATENCY, items))
    case TitleBar(bar) => rest.(clientTitle := Some(bar))
  }

  predicate IsCell(u: Uuid) {
    exists i: nat | i < CELLS :: u == CellUuid(i)
  }

  function DoOther(st: State, m: Msg): State {
    st.(client := ApplyMsg(st.client, m),
        clientTitle := if m.TitleMsg? then Some(Title(m.header, m.footer)) else st.clientTitle,
        lost := st.lost || !Avoids(m, IsCell))
  }

  function Next(st: State, step: Step): State
    requires |st.local.cells| == CELLS
  {
    match step
    case SetProperties(i, properties) =>
      if i < CELLS then st.(local := WithProperties(st.local, i, properties)) else st
    case SetPing(i, ping) => if i < CELLS then st.(local := WithPing(st.local, i, ping)) else st
    case SetName(i, text) => if i < CELLS then st.(local := WithName(st.local, i, text)) else st
    case SetTitle(title) => st.(local := WithTitle(st.local, title))
    case Flush(accepted) => DoFlush(st, accepted)
    case SerializeCell =>
      if st.queue != [] && st.queue[0].Full? && |st.serialized| < CELLS
      then st.(serialized := st.serialized + [st.local.cells[|st.serialized|]]) else st
    case Deliver =>
      if st.queue != [] && (st.queue[0].Full? ==> |st.serialized| == CELLS) then DoDeliver(st) else st
    case OtherPacket(m) => DoOther(st, m)
  }

  predicate Shape(st: State) {
    && CellsOk(st.local.cells)
    && |st.serialized| <= CELLS
    && (st.serialized != [] ==> st.queue != [] && st.queue[0].Full?)
    && (forall i :: 0 <= i < |st.serialized| ==> st.serialized[i].uuid == CellUuid(i))
  }

  // ---- what the client will have for one cell --------------------------------------------

  /** The last value the updates give the entry u. */
  function NameAfter(items: seq<PlayerListItem>, u: Uuid, name: seq<byte>): seq<byte> {
    if items == [] then name
    else NameAfter(items[1..], u, if items[0].uuid == u then items[0].displayName else name)
  }

  function PingAfter(items: seq<PlayerListItem>, u: Uuid, ping: int32): int32 {
    if items == [] then ping
    else PingAfter(items[1..], u, if items[0].uuid == u then items[0].ping else ping)
  }

  /** What one packet makes of the entry of cell i. */
  function Through(
    packet: Queued, entry: Option<PlayerListItem>, serialized: seq<PlayerListItem>,
    cells: seq<PlayerListItem>, i: nat): Option<PlayerListItem>
    requires |cells| == CELLS && i < CELLS
  {
    match packet
    case Full => Some(if i < |serialized| then serialized[i] else cells[i])
    case Names(items) =>
      if entry.None? then None
      else Some(entry.value.(displayName := NameAfter(items, CellUuid(i), entry.value.displayName)))
    case Pings(items) =>
      if entry.None? then None
      else Some(entry.value.(ping := PingAfter(items, CellUuid(i), entry.value.ping)))
    case TitleBar(_) => entry
  }

  /** The entry of cell i once the queue is drained, if the cells stay as they are. */
  function Drained(
    entry: Option<PlayerListItem>, queue: seq<Queued>, serialized: seq<PlayerListItem>,
    cells: seq<PlayerListItem>, i: nat): Option<PlayerListItem>
    requires |cells| == CELLS && i < CELLS
    decreases |queue|
  {
    if queue == [] then entry
    else Drained(Through(queue[0], entry, serialized, cells, i), queue[1..], [], cells, i)
  }

  function Entry(client: Table, i: nat): Option<PlayerListItem>
    requires i < CELLS
  {
    if CellUuid(i) in client then Some(client[CellUuid(i)]) else None
  }

  /** The same for a state of the machine. */
  function InFlight(st: State, i: nat): Option<PlayerListItem>
    requires Shape(st) && i < CELLS
  {
    Drained(Entry(st.client, i), st.queue, st.serialized, st.local.cells, i)
  }

  /** Cell i is right once the queue is drained and the recorded changes have been sent too. */
  predicate WillBeRight(st: State, i: nat)
    requires Shape(st) && i < CELLS
  {
    var d := InFlight(st, i);
    && d.Some?
    && d.value.(displayName := NameAfter(st.local.changedNames, CellUuid(i), d.value.displayName),
                ping := PingAfter(st.local.changedPings, CellUuid(i), d.value.ping))
       == st.local.cells[i]
  }

  ghost predicate Invariant(st: State) {
    && Shape(st)
    && (!st.local.sendFull && !st.lost ==> forall i :: 0 <= i < CELLS ==> WillBeRight(st, i))
  }

  // ---- lemmas about updates --------------------------------------------------------------

  lemma {:induction false} AfterAppend(
    items: seq<PlayerListItem>, v: PlayerListItem, u: Uuid, name: seq<byte>, ping: int32)
    ensures NameAfter(items + [v], u, name) == if v.uuid == u then v.displayName else NameAfter(items, u, name)
    ensures PingAfter(items + [v], u, ping) == if v.uuid == u then v.ping else PingAfter(items, u, ping)
    decreases |items|
  {
    if items == [] {
      assert (items + [v])[1..] == [];
    } else {
      assert (items + [v])[1..] == items[1..] + [v];
      AfterAppend(items[1..], v, u, if items[0].uuid == u then items[0].displayName else name,
                  if items[0].uuid == u then items[0].ping else ping);
    }
  }

  lemma {:induction false} UpdatedEntry(t: Table, items: seq<PlayerListItem>, u: Uuid)
    ensures var names := ApplyItems(t, UPDATE_DISPLAY_NAME, items);
      && (u in names <==> u in t)
      && (u in t ==> names[u] == t[u].(displayName := NameAfter(items, u, t[u].displayName)))
    ensures var pings := ApplyItems(t, UPDATE_LATENCY, items);
      && (u in pings <==> u in t)
      && (u in t ==> pings[u] == t[u].(ping := PingAfter(items, u, t[u].ping)))
    decreases |items|
  {
    if items != [] {
      UpdatedEntry(ApplyItem(t, UPDATE_DISPLAY_NAME, items[0]), items[1..], u);
      UpdatedEntry(ApplyItem(t, UPDATE_LATENCY, items[0]), items[1..], u);
    }
  }

  /** Adding items with different UUIDs leaves each of them in the table. */
  lemma {:induction false} AddedEntry(t: Table, items: seq<PlayerListItem>, i: nat)
    requires i < |items| && forall j, k :: 0 <= j < k < |items| ==> items[j].uuid != items[k].uuid
    ensures items[i].uuid in ApplyItems(t, ADD_PLAYER, items)
    ensures ApplyItems(t, ADD_PLAYER, items)[items[i].uuid] == items[i]
    decreases |items|
  {
    var init, last := items[..|items| - 1], items[|items| - 1];
    assert items == init + [last];
    ApplyItemsAppend(t, ADD_PLAYER, init, last);
    if i < |init| {
      AddedEntry(t, init, i);
    }
  }

  // ---- lemmas about draining -------------------------------------------------------------

  predicate SameButPing(a: Option<PlayerListItem>, b: Option<PlayerListItem>) {
    a.Some? == b.Some? && (a.Some? ==> a.value.(ping := 0) == b.value.(ping := 0))
  }

  predicate SameButName(a: Option<PlayerListItem>, b: Option<PlayerListItem>) {
    a.Some? == b.Some? && (a.Some? ==> a.value.(displayName := []) == b.value.(displayName := []))
  }

  /** Changing cells under way only shows in the fields that changed. */
  lemma {:induction false} DrainedChange(
    a: Option<PlayerListItem>, b: Option<PlayerListItem>, queue: seq<Queued>, serialized: seq<PlayerListItem>,
    cells: seq<PlayerListItem>, cells': seq<PlayerListItem>, i: nat)
    requires |cells| == |cells'| == CELLS && i < CELLS
    ensures a == b && cells[i] == cells'[i] ==>
      Drained(a, queue, serialized, cells, i) == Drained(b, queue, serialized, cells', i)
    ensures SameButPing(a, b) && cells[i].(ping := 0) == cells'[i].(ping := 0) ==>
      SameButPing(Drained(a, queue, serialized, cells, i), Drained(b, queue, serialized, cells', i))
    ensures SameButName(a, b) && cells[i].(displayName := []) == cells'[i].(displayName := []) ==>
      SameButName(Drained(a, queue, serialized, cells, i), Drained(b, queue, serialized, cells', i))
    decreases |queue|
  {
    if queue != [] {
      DrainedChange(Through(queue[0], a, serialized, cells, i), Through(queue[0], b, serialized, cells', i),
                    queue[1..], [], cells, cells', i);
    }
  }

  lemma {:induction false} DrainedAppend(
    entry: Option<PlayerListItem>, queue: seq<Queued>, packets: seq<Queued>,
    serialized: seq<PlayerListItem>, cells: seq<PlayerListItem>, i: nat)
    requires |cells| == CELLS && i < CELLS && (queue == [] ==> serialized == [])
    ensures Drained(entry, queue + packets, serialized, cells, i)
            == Drained(Drained(entry, queue, serialized, cells, i), packets, [], cells, i)
    decreases |queue|
  {
    hide Through;
    if queue == [] {
      assert queue + packets == packets;
    } else {
      assert (queue + packets)[1..] == queue[1..] + packets;
      DrainedAppend(Through(queue[0], entry, serialized, cells, i), queue[1..], packets, [], cells, i);
    }
  }

  /** What the packets of a flush make of an entry. */
  lemma DrainedPending(entry: Option<PlayerListItem>, l: Local, i: nat)
    requires |l.cells| == CELLS && i < CELLS
    ensures Drained(entry, Pending(l), [], l.cells, i) ==
      if l.sendFull then Some(l.cells[i])
      else if entry.None? then None
      else Some(entry.value.(
        displayName := NameAfter(l.changedNames, CellUuid(i), entry.value.displayName),
        ping := PingAfter(l.changedPings, CellUuid(i), entry.value.ping)))
  {
    var names := if l.changedNames != [] then [Names(l.changedNames)] else [];
    var pings := if l.changedPings != [] then [Pings(l.changedPings)] else [];
    var bar := if l.title.Some? then [TitleBar(l.title.value)] else [];
    DrainedAppend(entry, Lists(l), bar, [], l.cells, i);
    DrainedOne(Drained(entry, Lists(l), [], l.cells, i), bar, l.cells, i);
    if !l.sendFull {
      assert Lists(l) == names + pings;
      DrainedAppend(entry, names, pings, [], l.cells, i);
      DrainedOne(entry, names, l.cells, i);
      DrainedOne(Drained(entry, names, [], l.cells, i), pings, l.cells, i);
    } else {
      DrainedOne(entry, [Full], l.cells, i);
    }
  }

  lemma DrainedOne(entry: Option<PlayerListItem>, packets: seq<Queued>, cells: seq<PlayerListItem>, i: nat)
    requires |cells| == CELLS && i < CELLS && |packets| <= 1
    ensures Drained(entry, packets, [], cells, i) ==
      if packets == [] then entry else Through(packets[0], entry, [], cells, i)
  {
    if packets != [] {
      assert packets[1..] == [];
    }
  }

  // ---- the steps keep the invariant ------------------------------------------------------

  lemma SetPingKeeps(st: State, i: nat, ping: int32)
    requires Invariant(st) && i < CELLS
    ensures Invariant(st.(local := WithPing(st.local, i, ping)))
  {
    var st' := st.(local := WithPing(st.local, i, ping));
    assert Shape(st');
    if !st.local.sendFull && !st.lost && st' != st {
      hide Drained;
      forall j | 0 <= j < CELLS ensures WillBeRight(st', j) {
        assert WillBeRight(st, j);
        var e := Entry(st.client, j);
        DrainedChange(e, e, st.queue, st.serialized, st.local.cells, st'.local.cells, j);
        var d := Drained(e, st.queue, st.serialized, st'.local.cells, j);
        AfterAppend(st.local.changedPings, st'.local.cells[i], CellUuid(j), [], if d.Some? then d.value.ping else 0);
        if j != i {
          CellUuidsDiffer(i, j);
        }
      }
    }
  }

  lemma SetNameKeeps(st: State, i: nat, text: seq<byte>)
    requires Invariant(st) && i < CELLS
    ensures Invariant(st.(local := WithName(st.local, i, text)))
  {
    var st' := st.(local := WithName(st.local, i, text));
    assert Shape(st');
    if !st.local.sendFull && !st.lost && st' != st {
      hide Drained;
      forall j | 0 <= j < CELLS ensures WillBeRight(st', j) {
        assert WillBeRight(st, j);
        var e := Entry(st.client, j);
        DrainedChange(e, e, st.queue, st.serialized, st.local.cells, st'.local.cells, j);
        var d := Drained(e, st.queue, st.serialized, st'.local.cells, j);
        var name := if d.Some? then d.value.displayName else [];
        AfterAppend(st.local.changedNames, st'.local.cells[i], CellUuid(j), name, 0);
        if j != i {
          CellUuidsDiffer(i, j);
        }
      }
    }
  }

  /** What an accepted flush puts in flight. */
  lemma AcceptedFlush(st: State, i: nat)
    requires Shape(st) && i < CELLS
    ensures Shape(DoFlush(st, true))
    ensures InFlight(DoFlush(st, true), i) ==
      var d := InFlight(st, i);
      if st.local.sendFull then Some(st.local.cells[i])
      else if d.None? then None
      else Some(d.value.(
        displayName := NameAfter(st.local.changedNames, CellUuid(i), d.value.displayName),
        ping := PingAfter(st.local.changedPings, CellUuid(i), d.value.ping)))
  {
    hide Drained, Pending;
    var e := Entry(st.client, i);
    DrainedAppend(e, st.queue, Pending(st.local), st.serialized, st.local.cells, i);
    DrainedPending(InFlight(st, i), st.local, i);
    if Pending(st.local) == [] {
      assert st.queue + Pending(st.local) == st.queue;
    }
  }

  /** A flush that is refused, or has no list to send, leaves in flight what was. */
  lemma RefusedFlush(st: State, i: nat)
    requires Shape(st) && i < CELLS
    ensures Shape(DoFlush(st, false)) && InFlight(DoFlush(st, false), i) == InFlight(st, i)
  {
  }

  lemma NoChanges(u: Uuid)
    ensures forall name :: NameAfter([], u, name) == name
    ensures forall ping :: PingAfter([], u, ping) == ping
  {
  }

  lemma FlushKeeps(st: State, accepted: bool)
    requires Invariant(st)
    ensures Invariant(DoFlush(st, accepted))
  {
    var st' := DoFlush(st, accepted);
    assert Shape(st');
    if !st'.lost {
      hide InFlight;
      forall i | 0 <= i < CELLS ensures WillBeRight(st', i) {
        NoChanges(CellUuid(i));
        if accepted {
          AcceptedFlush(st, i);
        } else {
          RefusedFlush(st, i);
        }
        if !st.local.sendFull {
          assert WillBeRight(st, i);
        }
      }
    }
  }

  lemma SetTitleKeeps(st: State, title: Title)
    requires Invariant(st)
    ensures Invariant(Next(st, SetTitle(title)))
  {
    var st' := Next(st, SetTitle(title));
    if !st.local.sendFull && !st.lost {
      hide Drained;
      forall i | 0 <= i < CELLS ensures WillBeRight(st', i) {
        assert WillBeRight(st, i);
      }
    }
  }

  lemma SerializeKeeps(st: State)
    requires Invariant(st) && st.queue != [] && st.queue[0].Full? && |st.serialized| < CELLS
    ensures Invariant(st.(serialized := st.serialized + [st.local.cells[|st.serialized|]]))
  {
    var st' := st.(serialized := st.serialized + [st.local.cells[|st.serialized|]]);
    assert Shape(st');
    if !st.local.sendFull && !st.lost {
      forall i | 0 <= i < CELLS ensures WillBeRight(st', i) {
        assert WillBeRight(st, i);
        assert Through(Full, Entry(st.client, i), st'.serialized, st.local.cells, i)
               == Through(Full, Entry(st.client, i), st.serialized, st.local.cells, i);
      }
    }
  }

  lemma DeliverKeeps(st: State)
    requires Invariant(st) && st.queue != [] && (st.queue[0].Full? ==> |st.serialized| == CELLS)
    ensures Invariant(DoDeliver(st))
  {
    var st' := DoDeliver(st);
    assert Shape(st');
    if !st.local.sendFull && !st.lost {
      forall i | 0 <= i < CELLS ensures WillBeRight(st', i) {
        assert WillBeRight(st, i);
        DeliveredEntry(st, i);
      }
    }
  }

  lemma DeliveredEntry(st: State, i: nat)
    requires Shape(st) && st.queue != [] && (st.queue[0].Full? ==> |st.serialized| == CELLS) && i < CELLS
    ensures Entry(DoDeliver(st).client, i)
            == Through(st.queue[0], Entry(st.client, i), st.serialized, st.local.cells, i)
  {
    hide ApplyItems;
    match st.queue[0]
    case Full =>
      forall j, k | 0 <= j < k < CELLS ensures st.serialized[j].uuid != st.serialized[k].uuid {
        CellUuidsDiffer(j, k);
      }
      AddedEntry(st.client, st.serialized, i);
    case Names(items) => UpdatedEntry(st.client, items, CellUuid(i));
    case Pings(items) => UpdatedEntry(st.client, items, CellUuid(i));
    case TitleBar(_) =>
  }

  lemma StepKeepsInvariant(st: State, step: Step)
    requires Invariant(st)
    ensures Invariant(Next(st, step))
  {
    hide WillBeRight, WithPing, WithName, DoFlush, DoDeliver, DoOther;
    match step
    case SetProperties(i, properties) =>
    case SetPing(i, ping) => if i < CELLS { SetPingKeeps(st, i, ping); }
    case SetName(i, text) => if i < CELLS { SetNameKeeps(st, i, text); }
    case SetTitle(title) => SetTitleKeeps(st, title);
    case Flush(accepted) => FlushKeeps(st, accepted);
    case SerializeCell =>
      if st.queue != [] && st.queue[0].Full? && |st.serialized| < CELLS { SerializeKeeps(st); }
    case Deliver =>
      if st.queue != [] && (st.queue[0].Full? ==> |st.serialized| == CELLS) { DeliverKeeps(st); }
    case OtherPacket(m) => OtherKeeps(st, m);
  }

  /** A packet of someone else that names no cell leaves the client's cells as they are. */
  lemma OtherLeavesCells(st: State, m: Msg, i: nat)
    requires i < CELLS && Avoids(m, IsCell)
    ensures Entry(DoOther(st, m).client, i) == Entry(st.client, i)
  {
    if m.PlayerListMsg? {
      EffectIsEntry(st.client, m.list.action, m.list.items, CellUuid(i));
    }
  }

  lemma OtherKeeps(st: State, m: Msg)
    requires Invariant(st)
    ensures Invariant(DoOther(st, m))
  {
    var st' := DoOther(st, m);
    assert Shape(st');
    if !st.local.sendFull && !st'.lost {
      hide ApplyMsg, Avoids, Drained;
      forall i | 0 <= i < CELLS ensures WillBeRight(st', i) {
        assert WillBeRight(st, i);
        OtherLeavesCells(st, m, i);
      }
    }
  }

  lemma NextKeepsCells(st: State, step: Step)
    requires |st.local.cells| == CELLS
    ensures |Next(st, step).local.cells| == CELLS
  {
  }

  function Run(st: State, steps: seq<Step>): (r: State)
    requires |st.local.cells| == CELLS
    ensures |r.local.cells| == CELLS
  {
    if steps == [] then st
    else
      var before := Run(st, steps[..|steps| - 1]);
      NextKeepsCells(before, steps[|steps| - 1]);
      Next(before, steps[|steps| - 1])
  }

  /** A tab list that was just made, and a client that may have any player list. */
  predicate Initial(st: State) {
    && CellsOk(st.local.cells) && st.local.sendFull
    && st.local.title.None?
    && st.queue == [] && st.serialized == [] && !st.lost
  }

  lemma {:induction false} RunKeepsInvariant(st: State, steps: seq<Step>)
    requires Initial(st)
    ensures Invariant(Run(st, steps))
    decreases |steps|
  {
    if steps != [] {
      hide Invariant, Next;
      RunKeepsInvariant(st, steps[..|steps| - 1]);
      StepKeepsInvariant(Run(st, steps[..|steps| - 1]), steps[|steps| - 1]);
    }
  }

  predicate ShowsCells(client: Table, cells: seq<PlayerListItem>)
    requires |cells| == CELLS
  {
    forall i :: 0 <= i < CELLS ==> CellUuid(i) in client && client[CellUuid(i)] == cells[i]
  }

  /** Convergence: whatever was set, flushed, serialized and delivered in whatever order, and
      whatever packets that name no cell others sent in between, once everything set has been
      flushed, the queue is drained and no refused flush is left unrepaired, the client shows the
      80 cells. */
  lemma ClientConverges(st: State, steps: seq<Step>)
    requires Initial(st)
    ensures var r := Run(st, steps);
      !r.lost && r.queue == [] && Lists(r.local) == [] ==> ShowsCells(r.client, r.local.cells)
  {
    RunKeepsInvariant(st, steps);
    var r := Run(st, steps);
    hide Run;
    if !r.lost && r.queue == [] && Lists(r.local) == [] {
      forall i | 0 <= i < CELLS
        ensures CellUuid(i) in r.client && r.client[CellUuid(i)] == r.local.cells[i]
      {
        assert WillBeRight(r, i);
      }
    }
  }

  // ---- what the cells hold ---------------------------------------------------------------

  /** The bytes of an ASCII text. */
  function Bytes(text: string): seq<byte>
    requires forall i :: 0 <= i < |text| ==> text[i] < 128 as char
  {
    seq(|text|, i requires 0 <= i < |text| => text[i] as int)
  }

  lemma Texts()
    ensures TOO_LONG == Bytes("{\"text\":\"TOO_LONG_STR\"}")
    ensures EMPTY_NAME == Bytes("{\"text\":\"\"}")
  {
  }

  /** The last text set for cell i in a run, as it is shown; the one it had before, if none was. */
  function LastName(steps: seq<Step>, i: nat, before: seq<byte>): seq<byte> {
    if steps == [] then before
    else
      match steps[|steps| - 1]
      case SetName(j, text) =>
        if j != i then LastName(steps[..|steps| - 1], i, before)
        else if |text| > 64 then Bytes("{\"text\":\"TOO_LONG_STR\"}") else text
      case _ => LastName(steps[..|steps| - 1], i, before)
  }

  function LastPing(steps: seq<Step>, i: nat, before: int32): int32 {
    if steps == [] then before
    else
      match steps[|steps| - 1]
      case SetPing(j, ping) => if j != i then LastPing(steps[..|steps| - 1], i, before) else ping
      case _ => LastPing(steps[..|steps| - 1], i, before)
  }

  function LastProperties(steps: seq<Step>, i: nat, before: seq<AuthProperty>): seq<AuthProperty> {
    if steps == [] then before
    else
      match steps[|steps| - 1]
      case SetProperties(j, properties) =>
        if j != i then LastProperties(steps[..|steps| - 1], i, before) else properties
      case _ => LastProperties(steps[..|steps| - 1], i, before)
  }

  /** Cell i as its owner wants it. */
  function Wanted(steps: seq<Step>, i: nat, before: PlayerListItem): PlayerListItem {
    before.(displayName := LastName(steps, i, before.displayName),
            ping := LastPing(steps, i, before.ping),
            properties := LastProperties(steps, i, before.properties))
  }

  lemma StepSetsCell(st: State, step: Step, i: nat)
    requires |st.local.cells| == CELLS && i < CELLS
    ensures var before, after := st.local.cells[i], Next(st, step).local.cells[i];
      after ==
        match step
        case SetProperties(j, properties) => if j == i then before.(properties := properties) else before
        case SetPing(j, ping) => if j == i then before.(ping := ping) else before
        case SetName(j, text) =>
          if j != i then before
          else before.(displayName := if |text| > 64 then Bytes("{\"text\":\"TOO_LONG_STR\"}") else text)
        case _ => before
  {
    hide ApplyMsg, ApplyItems, Avoids;
    Texts();
  }

  /** In every run each cell holds the last name, ping and properties set for it. */
  lemma {:induction false} CellsHoldWhatWasSet(st: State, steps: seq<Step>, i: nat)
    requires |st.local.cells| == CELLS && i < CELLS
    ensures Run(st, steps).local.cells[i] == Wanted(steps, i, st.local.cells[i])
    decreases |steps|
  {
    if steps != [] {
      hide Next, Bytes;
      CellsHoldWhatWasSet(st, steps[..|steps| - 1], i);
      StepSetsCell(Run(st, steps[..|steps| - 1]), steps[|steps| - 1], i);
    }
  }

  /** So the client comes to show what the callers set. */
  lemma ClientShowsWhatWasSet(st: State, steps: seq<Step>, i: nat)
    requires Initial(st) && i < CELLS
    ensures var r := Run(st, steps);
      !r.lost && r.queue == [] && Lists(r.local) == [] ==>
        CellUuid(i) in r.client && r.client[CellUuid(i)] == Wanted(steps, i, st.local.cells[i])
  {
    ClientConverges(st, steps);
    CellsHoldWhatWasSet(st, steps, i);
  }

  /** Every cell is on its way to being right: with the next flush if not before. */
  predicate Promised(st: State)
    requires Shape(st)
  {
    st.local.sendFull || forall i :: 0 <= i < CELLS ==> WillBeRight(st, i)
  }

  /** Some cell differs from what is in flight for it. */
  predicate News(st: State)
    requires Shape(st)
  {
    exists i :: 0 <= i < CELLS && InFlight(st, i) != Some(st.local.cells[i])
  }

  lemma NoNewsWithoutLists(st: State)
    requires Shape(st) && Promised(st) && Lists(st.local) == []
    ensures !News(st)
  {
    hide InFlight;
    forall i: nat | i < CELLS ensures InFlight(st, i) == Some(st.local.cells[i]) {
      NoChanges(CellUuid(i));
      assert WillBeRight(st, i);
    }
  }

  /** A flush keeps every cell on its way to being right exactly if it is accepted or there is no
      news; that includes the refused full update. */
  lemma FlushKeepsPromiseExactly(st: State, accepted: bool)
    requires Shape(st) && Promised(st)
    ensures Shape(DoFlush(st, accepted))
    ensures Promised(DoFlush(st, accepted)) <==> accepted || !News(st)
  {
    var st' := DoFlush(st, accepted);
    assert Shape(st');
    hide InFlight, Drained;
    forall i: nat | i < CELLS
      ensures WillBeRight(st', i) <==> accepted || InFlight(st, i) == Some(st.local.cells[i])
    {
      NoChanges(CellUuid(i));
      if accepted {
        AcceptedFlush(st, i);
        assert !st.local.sendFull ==> WillBeRight(st, i);
      } else {
        RefusedFlush(st, i);
      }
    }
  }

  // ---- what the client ends up with ------------------------------------------------------

  predicate Draining(steps: seq<Step>) {
    forall i :: 0 <= i < |steps| ==> steps[i].SerializeCell? || steps[i].Deliver?
  }

  lemma DrainStepKeepsInFlight(st: State, step: Step, i: nat)
    requires Shape(st) && i < CELLS && (step.SerializeCell? || step.Deliver?)
    ensures Shape(Next(st, step)) && Next(st, step).local == st.local
    ensures InFlight(Next(st, step), i) == InFlight(st, i)
  {
    if step.Deliver? && st.queue != [] && (st.queue[0].Full? ==> |st.serialized| == CELLS) {
      DeliveredEntry(st, i);
    }
    if step.SerializeCell? && st.queue != [] && st.queue[0].Full? && |st.serialized| < CELLS {
      var more := st.serialized + [st.local.cells[|st.serialized|]];
      assert Through(Full, Entry(st.client, i), more, st.local.cells, i)
             == Through(Full, Entry(st.client, i), st.serialized, st.local.cells, i);
    }
  }

  lemma {:induction false} DrainingKeepsInFlight(st: State, steps: seq<Step>, i: nat)
    requires Shape(st) && i < CELLS && Draining(steps)
    ensures Shape(Run(st, steps)) && Run(st, steps).local == st.local
    ensures InFlight(Run(st, steps), i) == InFlight(st, i)
    decreases |steps|
  {
    if steps != [] {
      hide Next, Shape, InFlight;
      DrainingKeepsInFlight(st, steps[..|steps| - 1], i);
      DrainStepKeepsInFlight(Run(st, steps[..|steps| - 1]), steps[|steps| - 1], i);
    }
  }

  /** Exactly what a refused flush costs: when everything was on its way and nothing more is set,
      the drained client shows the cells if and only if the flush was accepted or had no news. */
  lemma RefusedFlushExactly(st: State, accepted: bool, steps: seq<Step>)
    requires Shape(st) && Promised(st) && Draining(steps)
    requires Run(DoFlush(st, accepted), steps).queue == []
    ensures ShowsCells(Run(DoFlush(st, accepted), steps).client, st.local.cells) <==> accepted || !News(st)
  {
    hide InFlight, Drained, DoFlush, Run, News, Promised, WillBeRight;
    FlushKeepsPromiseExactly(st, accepted);
    NothingPending(st, accepted);
    var st' := DoFlush(st, accepted);
    var r := Run(st', steps);
    forall i: nat | i < CELLS
      ensures Shape(r)
      ensures WillBeRight(st', i) <==> Entry(r.client, i) == Some(st.local.cells[i])
    {
      DrainingKeepsInFlight(st', steps, i);
      NothingInFlight(r, i);
      RightWithoutChanges(st', i);
    }
    PromiseWithoutFull(st');
  }

  lemma NothingPending(st: State, accepted: bool)
    requires Shape(st)
    ensures var l := DoFlush(st, accepted).local;
      l.cells == st.local.cells && !l.sendFull && l.changedNames == [] && l.changedPings == []
  {
  }

  lemma NothingInFlight(st: State, i: nat)
    requires Shape(st) && i < CELLS && st.queue == []
    ensures InFlight(st, i) == Entry(st.client, i)
  {
  }

  lemma RightWithoutChanges(st: State, i: nat)
    requires Shape(st) && i < CELLS && st.local.changedNames == [] && st.local.changedPings == []
    ensures WillBeRight(st, i) <==> InFlight(st, i) == Some(st.local.cells[i])
  {
    hide InFlight;
    NoChanges(CellUuid(i));
  }

  lemma PromiseWithoutFull(st: State)
    requires Shape(st) && !st.local.sendFull
    ensures Promised(st) <==> forall i :: 0 <= i < CELLS ==> WillBeRight(st, i)
  {
  }

  /** Exactly when a refused flush of changes does no harm to cell i: when the changes it threw
      away say nothing new about it. */
  lemma RefusedChangesExactly(st: State, i: nat)
    requires Shape(st) && i < CELLS && !st.local.sendFull && WillBeRight(st, i)
    ensures var d := InFlight(st, i).value;
      WillBeRight(DoFlush(st, false), i) <==>
        && NameAfter(st.local.changedNames, CellUuid(i), d.displayName) == d.displayName
        && PingAfter(st.local.changedPings, CellUuid(i), d.ping) == d.ping
  {
    hide Drained;
    NoChanges(CellUuid(i));
  }

  /** Without repair a refused flush is never made good: when the first full update is refused,
      later changes go out and are delivered, and the client still has no cell at all. */
  lemma RefusedFlushIsLost(st: State, ping: int32)
    requires Initial(st) && st.client == map[] && st.local.cells[0].ping != ping
    ensures var refused := Next(st, Flush(false));
      var flushed := Next(Next(refused, SetPing(0, ping)), Flush(true));
      var r := Next(flushed, Deliver);
      && Pending(st.local) == [Full]
      && refused.lost && flushed.queue != []
      && r.queue == [] && Pending(r.local) == [] && r.client == map[]
  {
    var cell := st.local.cells[0].(ping := ping);
    var changed := Next(Next(st, Flush(false)), SetPing(0, ping));
    var flushed := Next(changed, Flush(true));
    assert changed.local.changedPings == [cell];
    assert Pending(changed.local) == [Pings([cell])];
    assert flushed.queue == [Pings([cell])];
    assert ApplyItems(map[], UPDATE_LATENCY, [cell]) == map[];
  }

  /** The cells of a tab list that was just made. */
  function NewCell(i: nat, defaultTextures: AuthProperty): PlayerListItem
    requires i < CELLS
  {
    PlayerListItem(CellUuid(i), [], [defaultTextures], 0, 1, EMPTY_NAME)
  }

  // ---- the object of the source ----------------------------------------------------------

  /** The handler's command channel, as far as the tab list uses it. */
  class CommandChannel {
    var commands: seq<seq<Queued>>

    constructor ()
      ensures commands == []
    {
      commands := [];
    }

    /** InjectPackets: never blocks; fails when the channel is full. */
    method InjectPackets(packets: seq<Queued>) returns (ok: bool)
      modifies this
      ensures ok <==> |old(commands)| < QUEUE_CAPACITY
      ensures commands == if ok then old(commands) + [packets] else old(commands)
    {
      ok := |commands| < QUEUE_CAPACITY;
      if ok {
        commands := commands + [packets];
      }
    }
  }

  class TabList {
    const handler: CommandChannel
    const defaultTextures: AuthProperty
    const cells: array<PlayerListItem>
    var sendFull: bool
    var changedDn: seq<PlayerListItem>
    var changedPing: seq<PlayerListItem>
    var title: Option<Title>

    function View(): Local
      reads this, cells
    {
      Local(cells[..], sendFull, changedDn, changedPing, title)
    }

    ghost predicate Valid()
      reads this, cells
    {
      cells.Length == CELLS && CellsOk(cells[..])
    }

    constructor (handler: CommandChannel, defaultTextures: AuthProperty)
      ensures Valid() && fresh(cells) && this.handler == handler
      ensures forall i :: 0 <= i < CELLS ==> cells[i] == NewCell(i, defaultTextures)
      ensures forall client, bar :: Initial(State(View(), [], [], client, false, bar))
    {
      this.handler, this.defaultTextures := handler, defaultTextures;
      cells := new PlayerListItem[CELLS](i requires 0 <= i < CELLS =>
        NewCell(i, defaultTextures));
      sendFull, changedDn, changedPing, title := true, [], [], None;
    }

    /** tb.cell(x, y), which panics outside the 4 by 20 grid. */
    static function CellIndex(x: int, y: int): (id: nat)
      requires 0 <= x <= 3 && 0 <= y <= 19
      ensures id < CELLS && id / 20 == x && id % 20 == y
    {
      x * ROWS + y
    }

    method SetProperties(x: int, y: int, properties: Option<seq<AuthProperty>>)
      requires Valid() && 0 <= x <= 3 && 0 <= y <= 19
      modifies `sendFull, cells
      ensures Valid()
      ensures View() == WithProperties(old(View()), CellIndex(x, y),
        if properties.None? then [defaultTextures] else properties.value)
    {
      var id := CellIndex(x, y);
      var wanted := if properties.None? then [defaultTextures] else properties.value;
      if cells[id].properties != wanted {
        cells[id] := cells[id].(properties := wanted);
        sendFull := true;
      }
      assert cells[..] == WithProperties(old(View()), id, wanted).cells;
    }

    method SetPing(x: int, y: int, ping: int)
      requires Valid() && 0 <= x <= 3 && 0 <= y <= 19
      modifies `changedPing, cells
      ensures Valid()
      ensures View() == WithPing(old(View()), CellIndex(x, y), ToSigned(ping % 0x1_0000_0000))
    {
      var id := CellIndex(x, y);
      var value := ToSigned(ping % 0x1_0000_0000);
      if cells[id].ping == value {
        return;
      }
      cells[id] := cells[id].(ping := value);
      changedPing := changedPing + [cells[id]];
      assert cells[..] == WithPing(old(View()), id, value).cells;
    }

    /** SetCell with the formatted text. */
    method SetCell(x: int, y: int, text: seq<byte>)
      requires Valid() && 0 <= x <= 3 && 0 <= y <= 19
      modifies `changedDn, cells
      ensures Valid()
      ensures View() == WithName(old(View()), CellIndex(x, y), text)
    {
      var id := CellIndex(x, y);
      var displayName := text;
      if |displayName| > MAX_DISPLAY_NAME {
        displayName := TOO_LONG;
      }
      if cells[id].displayName != displayName {
        cells[id] := cells[id].(displayName := displayName);
        changedDn := changedDn + [cells[id]];
      }
      assert cells[..] == WithName(old(View()), id, text).cells;
    }

    method SetTitle(header: string, footer: string)
      modifies `title
      ensures View() == WithTitle(old(View()), Title(header, footer))
    {
      title := Some(Title(header, footer));
    }

    /** Hands the pending packets to the handler in one command, and forgets them. With every cell
        on its way to being right, it stays so exactly if there is no news or the command queue
        has room. */
    method Flush(ghost st: State) returns (ok: bool)
      requires st.local == View()
      modifies this, handler
      ensures View() == Flushed(old(View())) == DoFlush(st, ok).local
      ensures Pending(old(View())) == [] ==> ok && handler.commands == old(handler.commands)
      ensures Pending(old(View())) != [] ==>
        && (ok <==> |old(handler.commands)| < QUEUE_CAPACITY)
        && handler.commands == if ok then old(handler.commands) + [Pending(old(View()))] else old(handler.commands)
      ensures Shape(st) && Promised(st) ==>
        && Shape(DoFlush(st, ok))
        && (Promised(DoFlush(st, ok)) <==> !News(st) || |old(handler.commands)| < QUEUE_CAPACITY)
    {
      hide Shape, Promised, News;
      if Shape(st) && Promised(st) {
        FlushKeepsPromiseExactly(st, true);
        FlushKeepsPromiseExactly(st, false);
        if Lists(View()) == [] {
          NoNewsWithoutLists(st);
        }
      }
      var p := [];
      if sendFull {
        p := p + [Full];
        sendFull, changedDn, changedPing := false, [], [];
      }
      if changedDn != [] {
        p := p + [Names(changedDn)];
        changedDn := [];
      }
      if changedPing != [] {
        p := p + [Pings(changedPing)];
        changedPing := [];
      }
      if title.Some? {
        p := p + [TitleBar(title.value)];
        title := None;
      }
      if |p| < 1 {
        return true;
      }
      assert p == Pending(old(View()));
      ok := handler.InjectPackets(p);
    }
  }
}
