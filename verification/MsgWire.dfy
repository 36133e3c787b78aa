/** The writer of the session code, which deals in whole packets, over the writer of frames:
    packetWriter keeps the contract that Handler.MsgWriter states. */
module MsgWire {
  import opened Wire
  import opened Frames
  import opened Messages
  import opened PacketIO
  import opened PlayPackets
  import opened PlayerTable
  import opened StructCodec
  import opened TabList

  /** The packets the messages are serialized from. */
  function Encoded(encode: Msg -> Packet, ms: seq<Msg>): (ps: seq<Packet>)
    ensures |ps| == |ms|
  {
    if ms == [] then [] else Encoded(encode, ms[..|ms| - 1]) + [encode(ms[|ms| - 1])]
  }

  lemma EncodedAppend(encode: Msg -> Packet, ms: seq<Msg>, m: Msg)
    ensures Encoded(encode, ms + [m]) == Encoded(encode, ms) + [encode(m)]
  {
    assert (ms + [m])[..|ms|] == ms;
  }

  class WireWriter {
    const w: PacketWriter
    const encode: Msg -> Packet
    ghost var out: seq<Msg>   // the packets whose write was reported as done

    /** The frame writer has accepted those packets, and at most one more, on which it failed. */
    ghost predicate Valid()
      reads this, w, w.out
    {
      && w.Valid()
      && Encoded(encode, out) <= w.accepted
      && |w.accepted| <= |out| + 1
      && (!Err() ==> w.accepted == Encoded(encode, out))
    }

    predicate Err()
      reads w
    {
      w.err.Some?
    }

    constructor (w: PacketWriter, encode: Msg -> Packet)
      requires w.Valid() && w.accepted == []
      ensures Valid() && out == [] && this.w == w && this.encode == encode
    {
      this.w, this.encode, out := w, encode, [];
    }

    method WritePacket(m: Msg, flush: bool) returns (ok: bool)
      requires Valid()
      modifies `out, w, w.out
      ensures Valid()
      ensures ok == !Err()
      ensures out == if ok then old(out) + [m] else old(out)
      ensures old(Err()) ==> Err()
    {
      hide Encoded, ContentsOf, Wired, Prefixed;
      EncodedAppend(encode, out, m);
      var e := w.WritePacket(encode(m), flush);
      ok := e.None?;
      if ok {
        out := out + [m];
      }
    }

    method Flush() returns (ok: bool)
      requires Valid()
      modifies w`err, w.out`faults
      ensures Valid()
      ensures ok == !Err()
      ensures old(Err()) ==> Err()
    {
      var e := w.Flush();
      ok := e.None?;
    }
  }

  /** What the session's history says was written is what the other side reads: all of it with a
      clean end while nothing has failed; after a failure, a prefix of it and of at most one
      packet more. */
  lemma ClientReadsOut(ww: WireWriter)
    requires ww.Valid() && ww.w.base == [] && ww.w.zlib.Lawful()
    requires Deliverable(ww.w.zlib, ww.w.threshold, ww.w.accepted, ww.w.contents)
    ensures var read := ReadAll(ww.w.zlib, ww.w.threshold, ww.w.out.data);
      && read.packets <= Meanings(ww.w.zlib, ww.w.threshold, ww.w.accepted)
      && |read.packets| <= |ww.out| + 1
      && (!ww.Err() ==>
            && ww.w.accepted == Encoded(ww.encode, ww.out)
            && read == Outcome(Meanings(ww.w.zlib, ww.w.threshold, ww.w.accepted), EndOfStream))
  {
    hide ReadAll, Meanings, Encoded;
    SinkIsReadBack(ww.w);
  }

  // ---- the client's player list from the bytes -------------------------------------------

  const PLAYER_LIST_ID: int32 := 0x32

  /** What a client makes of the packets it reads: it parses the player lists and applies them. */
  function ReceivedTable(packets: seq<Received>): Table {
    if packets == [] then map[]
    else
      var before, last := ReceivedTable(packets[..|packets| - 1]), packets[|packets| - 1];
      var parsed := ReadPlayerList(last.body);
      if last.id == PLAYER_LIST_ID && parsed.ok then ApplyList(before, parsed.value) else before
  }

  /** Player lists are serialized by their packet type, and what they carry is within the parser's
      bounds; nothing else has their ID. */
  predicate CarriesLists(z: Zlib, threshold: int, encode: Msg -> Packet, m: Msg) {
    if m.PlayerListMsg? then
      encode(m) == Typed(PLAYER_LIST_ID, WritePlayerList(m.list), true) && PlayerListInBounds(CarriedForm(m.list))
    else Readable(z, threshold, encode(m)) ==> Meaning(z, threshold, encode(m)).id != PLAYER_LIST_ID
  }

  lemma {:induction false} MeaningsAppend(z: Zlib, threshold: int, ps: seq<Packet>, p: Packet)
    requires (forall i :: 0 <= i < |ps| ==> Readable(z, threshold, ps[i])) && Readable(z, threshold, p)
    ensures Meanings(z, threshold, ps + [p]) == Meanings(z, threshold, ps) + [Meaning(z, threshold, p)]
    decreases |ps|
  {
    hide Readable, Meaning;
    if ps == [] {
      assert (ps + [p])[1..] == [];
    } else {
      assert (ps + [p])[1..] == ps[1..] + [p];
      MeaningsAppend(z, threshold, ps[1..], p);
    }
  }

  lemma ListReceived(z: Zlib, threshold: int, encode: Msg -> Packet, m: Msg, t: Table)
    requires CarriesLists(z, threshold, encode, m) && Readable(z, threshold, encode(m))
    ensures var r := Meaning(z, threshold, encode(m));
      var parsed := ReadPlayerList(r.body);
      ApplyMsg(t, m) == if r.id == PLAYER_LIST_ID && parsed.ok then ApplyList(t, parsed.value) else t
  {
    hide Readable, ReadPlayerList, WritePlayerList, ApplyItems, PlayerListInBounds;
    if m.PlayerListMsg? {
      PlayerListReadsBackExactly(m.list, []);
      CarriedApplies(t, m.list.action, m.list.items);
      assert WritePlayerList(m.list) + [] == WritePlayerList(m.list);
      TypedMeaning(z, threshold, PLAYER_LIST_ID, WritePlayerList(m.list));
    }
  }

  lemma TypedMeaning(z: Zlib, threshold: int, id: int32, body: seq<byte>)
    requires Readable(z, threshold, Typed(id, body, true))
    ensures Meaning(z, threshold, Typed(id, body, true)) == Received(id, body)
  {
  }

  lemma {:induction false} TableReceived(z: Zlib, threshold: int, encode: Msg -> Packet, ms: seq<Msg>)
    requires forall i :: 0 <= i < |ms| ==> CarriesLists(z, threshold, encode, ms[i])
    requires forall p <- Encoded(encode, ms) :: Readable(z, threshold, p)
    ensures ReceivedTable(Meanings(z, threshold, Encoded(encode, ms))) == ClientTable(ms)
    decreases |ms|
  {
    hide CarriesLists, Readable, Meaning, ReadPlayerList, ApplyItems;
    if ms != [] {
      var init, m := ms[..|ms| - 1], ms[|ms| - 1];
      assert forall p :: p in Encoded(encode, init) ==> p in Encoded(encode, ms);
      TableReceived(z, threshold, encode, init);
      MeaningsAppend(z, threshold, Encoded(encode, init), encode(m));
      ListReceived(z, threshold, encode, m, ClientTable(init));
      var read := Meanings(z, threshold, Encoded(encode, init));
      assert (read + [Meaning(z, threshold, encode(m))])[..|read|] == read;
    }
  }

  /** From the bytes in the sink, while nothing has failed, a client comes to the very player list
      the session's history says it has. */
  lemma ClientTableFromBytes(ww: WireWriter)
    requires ww.Valid() && !ww.Err() && ww.w.base == [] && ww.w.zlib.Lawful()
    requires Deliverable(ww.w.zlib, ww.w.threshold, ww.w.accepted, ww.w.contents)
    requires forall i :: 0 <= i < |ww.out| ==> CarriesLists(ww.w.zlib, ww.w.threshold, ww.encode, ww.out[i])
    ensures ReceivedTable(ReadAll(ww.w.zlib, ww.w.threshold, ww.w.out.data).packets) == ClientTable(ww.out)
  {
    hide ReadAll, Encoded, CarriesLists, Readable, ReceivedTable, ClientTable;
    ClientReadsOut(ww);
    TableReceived(ww.w.zlib, ww.w.threshold, ww.encode, ww.out);
  }

  // ---- the lists the proxy writes itself -------------------------------------------------

  /** The removal of a switch carries only UUIDs, whatever the stored items hold. */
  lemma SwitchIsCarried(
    z: Zlib, threshold: int, encode: Msg -> Packet, order: seq<PlayerListItem>, join: Join)
    requires var p := PlayerList(REMOVE_PLAYER, order);
      encode(PlayerListMsg(p)) == Typed(PLAYER_LIST_ID, WritePlayerList(p), true)
    requires |order| <= MAX_ITEMS && forall i :: 0 <= i < |order| ==> |order[i].uuid| == UUID_LENGTH
    ensures CarriesLists(z, threshold, encode, SwitchBlock(order, join)[0])
  {
  }

  /** What every cell and every copy of one holds: its UUID, no name, and a short display name. */
  predicate CellItem(v: PlayerListItem) {
    |v.uuid| == UUID_LENGTH && v.name == [] && |v.displayName| <= MAX_DISPLAY_NAME
  }

  predicate CellItems(items: seq<PlayerListItem>) {
    forall i :: 0 <= i < |items| ==> CellItem(items[i])
  }

  predicate QueuedItems(q: Queued) {
    match q
    case Names(items) => CellItems(items)
    case Pings(items) => CellItems(items)
    case _ => true
  }

  predicate AllCellItems(st: State) {
    && |st.local.cells| == CELLS
    && CellItems(st.local.cells) && CellItems(st.serialized)
    && CellItems(st.local.changedNames) && CellItems(st.local.changedPings)
    && forall i :: 0 <= i < |st.queue| ==> QueuedItems(st.queue[i])
  }

  lemma NewCellItems(st: State, defaultTextures: AuthProperty)
    requires |st.local.cells| == CELLS
    requires forall i :: 0 <= i < CELLS ==> st.local.cells[i] == NewCell(i, defaultTextures)
    requires st.local.changedNames == st.local.changedPings == st.serialized == [] && st.queue == []
    ensures AllCellItems(st)
  {
    CellTexts();
  }

  lemma StepKeepsCellItems(st: State, step: Step)
    requires AllCellItems(st)
    ensures AllCellItems(Next(st, step))
  {
    hide ApplyItems, ApplyMsg, Avoids;
    CellTexts();
  }

  lemma CellTexts()
    ensures |TOO_LONG| <= MAX_DISPLAY_NAME && |EMPTY_NAME| <= MAX_DISPLAY_NAME
  {
  }

  /** In every run of a tab list the packets on their way carry what a client can parse, up to the
      number of changes in one flush and the properties its owner set. */
  lemma {:induction false} TabItemsInRun(st: State, steps: seq<Step>)
    requires AllCellItems(st)
    ensures AllCellItems(Run(st, steps))
    decreases |steps|
  {
    if steps != [] {
      hide AllCellItems, Next;
      TabItemsInRun(st, steps[..|steps| - 1]);
      StepKeepsCellItems(Run(st, steps[..|steps| - 1]), steps[|steps| - 1]);
    }
  }

  predicate PropertiesFit(items: seq<PlayerListItem>) {
    forall i :: 0 <= i < |items| ==> |items[i].properties| <= MAX_PROPERTIES && PropertiesInBounds(items[i].properties)
  }

  lemma TabMessageIsCarried(z: Zlib, threshold: int, encode: Msg -> Packet, st: State, k: nat)
    requires AllCellItems(st) && k < |st.queue| && !st.queue[k].TitleBar?
    requires var p := TabMessage(st.queue[k], st.serialized).list;
      encode(PlayerListMsg(p)) == Typed(PLAYER_LIST_ID, WritePlayerList(p), true) && |p.items| <= MAX_ITEMS
    requires PropertiesFit(st.serialized)
    ensures CarriesLists(z, threshold, encode, TabMessage(st.queue[k], st.serialized))
  {
    hide PropertiesInBounds;
    assert QueuedItems(st.queue[k]);
  }
}
