/** The packets of the PLAY state as the session code sees them, and what they do to the
    player list of the client that receives them. */
module Messages {
  import opened PlayPackets
  import opened PlayerTable

  /** JoinGamePacketCB: `fields` stands for what the session code only copies. */
  datatype Join = Join(dimensionId: string, gameMode: int, fields: int)

  datatype Msg =
    | PlayerListMsg(list: PlayerList)
    | TitleMsg(header: string, footer: string)
    | RespawnMsg(dimensionId: string, gameMode: int, fields: int)
    | JoinMsg(join: Join)
    | GameStateMsg(reason: int, value: int)
    | KickMsg
    | OtherMsg(otherId: int, content: int)
  {
    function Id(): int {
      match this
      case PlayerListMsg(_) => 0x32
      case TitleMsg(_, _) => 0x53
      case RespawnMsg(_, _, _) => 0x39
      case JoinMsg(_) => 0x24
      case GameStateMsg(_, _) => 0x1D
      case KickMsg => 0x19
      case OtherMsg(id, _) => id
    }
  }

  /** What a filter bucket decides about a packet. */
  datatype Verdict = Pass | Drop | Fail

  /** A filter gets a pointer to the packet: it may change what is in it, not what it is. */
  predicate SameType(a: Msg, b: Msg) {
    a.Id() == b.Id() && (a.OtherMsg? <==> b.OtherMsg?)
  }

  /** The packet m after a filter tried to make it `edited`. */
  function Edited(m: Msg, edited: Msg): (r: Msg)
    ensures SameType(m, r)
  {
    if SameType(m, edited) then edited else m
  }

  /** Exactly which packets a filter can make of which: any of the same kind, and among those without
      a kind of their own any with the same ID. */
  lemma EditsExactly(m: Msg, edited: Msg)
    ensures
      var same :=
        || (m.PlayerListMsg? && edited.PlayerListMsg?) || (m.TitleMsg? && edited.TitleMsg?)
        || (m.RespawnMsg? && edited.RespawnMsg?) || (m.JoinMsg? && edited.JoinMsg?)
        || (m.GameStateMsg? && edited.GameStateMsg?) || (m.KickMsg? && edited.KickMsg?)
        || (m.OtherMsg? && edited.OtherMsg? && m.otherId == edited.otherId);
      Edited(m, edited) == if same then edited else m
  {
  }

  const EMPTY_TEXT := "{\"text\":\"\"}"

  /** The packets SendDimensionSwitch writes; `order` is the player list in the order its
      range loop met it. */
  function SwitchBlock(order: seq<PlayerListItem>, join: Join): (block: seq<Msg>)
    ensures |block| == 6
  {
    var away := if join.dimensionId == "minecraft:overworld" then "minecraft:the_end" else join.dimensionId;
    [ PlayerListMsg(PlayerList(REMOVE_PLAYER, order)),
      TitleMsg(EMPTY_TEXT, EMPTY_TEXT),
      RespawnMsg(away, join.gameMode, join.fields),
      JoinMsg(join),
      RespawnMsg(join.dimensionId, join.gameMode, join.fields),
      GameStateMsg(3, join.gameMode) ]
  }

  // ---- where a switch takes the client ---------------------------------------------------

  /** The world a client is in, and the JoinGame packets it has seen. */
  datatype Place = Place(dimension: string, gameMode: int, fields: int, joins: seq<Join>)

  function Moved(at: Place, m: Msg): Place {
    match m
    case RespawnMsg(dimension, gameMode, fields) => at.(dimension := dimension, gameMode := gameMode, fields := fields)
    case JoinMsg(join) => Place(join.dimensionId, join.gameMode, join.fields, at.joins + [join])
    case GameStateMsg(reason, value) => if reason == 3 then at.(gameMode := value) else at
    case _ => at
  }

  function MovedBy(at: Place, ms: seq<Msg>): Place {
    if ms == [] then at else Moved(MovedBy(at, ms[..|ms| - 1]), ms[|ms| - 1])
  }

  /** The JoinGame is packet k and no other. */
  ghost predicate JoinsAt(block: seq<Msg>, join: Join, k: nat)
    requires k < |block|
  {
    && block[k] == JoinMsg(join)
    && (forall i :: 0 <= i < |block| && i != k ==> !block[i].JoinMsg?)
    && (forall at :: MovedBy(at, block[..k]).dimension
                     == if join.dimensionId == "minecraft:overworld" then "minecraft:the_end" else join.dimensionId)
    && RespawnMsg(join.dimensionId, join.gameMode, join.fields) in block[k + 1..]
  }

  /** Wherever the client was, the block brings it into the world of the JoinGame, which it sees
      exactly once, by a respawn after it; before the JoinGame it was sent to a world that is not
      the overworld, so that a switch between overworlds is a change of world; and its title is
      cleared. */
  ghost predicate LeadsInto(block: seq<Msg>, join: Join) {
    && (forall at :: MovedBy(at, block)
                     == Place(join.dimensionId, join.gameMode, join.fields, at.joins + [join]))
    && (exists k :: 0 <= k < |block| && JoinsAt(block, join, k))
    && TitleMsg("{\"text\":\"\"}", "{\"text\":\"\"}") in block
  }

  lemma {:induction false} MovedAppend(at: Place, ms: seq<Msg>, m: Msg)
    ensures MovedBy(at, ms + [m]) == Moved(MovedBy(at, ms), m)
  {
    assert (ms + [m])[..|ms|] == ms;
  }

  lemma SwitchMoves(at: Place, order: seq<PlayerListItem>, join: Join)
    ensures var block := SwitchBlock(order, join);
      && MovedBy(at, block[..3]).dimension
         == (if join.dimensionId == "minecraft:overworld" then "minecraft:the_end" else join.dimensionId)
      && MovedBy(at, block) == Place(join.dimensionId, join.gameMode, join.fields, at.joins + [join])
  {
    hide MovedBy;
    var b := SwitchBlock(order, join);
    MovedByNothing(at);
    MovedAppend(at, [], b[0]);
    MovedAppend(at, [b[0]], b[1]);
    MovedAppend(at, [b[0], b[1]], b[2]);
    MovedAppend(at, [b[0], b[1], b[2]], b[3]);
    MovedAppend(at, [b[0], b[1], b[2], b[3]], b[4]);
    MovedAppend(at, [b[0], b[1], b[2], b[3], b[4]], b[5]);
    assert [] + [b[0]] == [b[0]] && [b[0]] + [b[1]] == [b[0], b[1]];
    assert [b[0], b[1]] + [b[2]] == [b[0], b[1], b[2]] == b[..3];
    assert [b[0], b[1], b[2]] + [b[3]] == [b[0], b[1], b[2], b[3]];
    assert [b[0], b[1], b[2], b[3]] + [b[4]] == [b[0], b[1], b[2], b[3], b[4]];
    assert [b[0], b[1], b[2], b[3], b[4]] + [b[5]] == b;
  }

  lemma MovedByNothing(at: Place)
    ensures MovedBy(at, []) == at
  {
  }

  lemma SwitchShape(order: seq<PlayerListItem>, join: Join)
    ensures var block := SwitchBlock(order, join);
      && block[3] == JoinMsg(join) && block[1] == TitleMsg(EMPTY_TEXT, EMPTY_TEXT)
      && block[4] == RespawnMsg(join.dimensionId, join.gameMode, join.fields)
      && forall i :: 0 <= i < 6 && i != 3 ==> !block[i].JoinMsg?
  {
  }

  lemma InTail<T>(s: seq<T>, k: nat)
    requires k < |s|
    ensures s[k] in s[k..] && s[k] in s
  {
    assert s[k..][0] == s[k];
  }

  lemma SwitchJoins(order: seq<PlayerListItem>, join: Join)
    ensures JoinsAt(SwitchBlock(order, join), join, 3)
  {
    var block := SwitchBlock(order, join);
    SwitchShape(order, join);
    InTail(block, 4);
    hide MovedBy, SwitchBlock;
    forall at
      ensures MovedBy(at, block[..3]).dimension
              == if join.dimensionId == "minecraft:overworld" then "minecraft:the_end" else join.dimensionId
    {
      SwitchMoves(at, order, join);
    }
  }

  lemma SwitchLeadsInto(order: seq<PlayerListItem>, join: Join)
    ensures LeadsInto(SwitchBlock(order, join), join)
  {
    var block := SwitchBlock(order, join);
    SwitchShape(order, join);
    InTail(block, 1);
    hide MovedBy, SwitchBlock, JoinsAt;
    SwitchJoins(order, join);
    forall at
      ensures MovedBy(at, block) == Place(join.dimensionId, join.gameMode, join.fields, at.joins + [join])
    {
      SwitchMoves(at, order, join);
    }
  }

  function ApplyMsg(t: Table, m: Msg): Table {
    if m.PlayerListMsg? then ApplyList(t, m.list) else t
  }

  /** The client's player list after it received `out`. */
  function ClientTable(out: seq<Msg>): Table {
    if out == [] then map[] else ApplyMsg(ClientTable(out[..|out| - 1]), out[|out| - 1])
  }

  lemma ClientTableAppend(out: seq<Msg>, m: Msg)
    ensures ClientTable(out + [m]) == ApplyMsg(ClientTable(out), m)
  {
    assert (out + [m])[..|out|] == out;
  }

  predicate TouchesOnly(m: Msg, reserved: Uuid -> bool) {
    m.PlayerListMsg? ==> AllReserved(m.list.items, reserved)
  }

  predicate Avoids(m: Msg, reserved: Uuid -> bool) {
    m.PlayerListMsg? ==> NoneReserved(m.list.items, reserved)
  }

  lemma {:induction false} ReservedMessages(out: seq<Msg>, ms: seq<Msg>, reserved: Uuid -> bool)
    requires forall i :: 0 <= i < |ms| ==> TouchesOnly(ms[i], reserved)
    ensures Outside(ClientTable(out + ms), reserved) == Outside(ClientTable(out), reserved)
    decreases |ms|
  {
    hide ApplyItems, Outside, ClientTable;
    if ms == [] {
      assert out + ms == out;
    } else {
      var init, m := ms[..|ms| - 1], ms[|ms| - 1];
      assert out + ms == (out + init) + [m];
      ClientTableAppend(out + init, m);
      ReservedMessages(out, init, reserved);
      if m.PlayerListMsg? {
        ApplyReserved(ClientTable(out + init), m.list.action, m.list.items, reserved);
      }
    }
  }

  /** From its first packet on, a switch block leaves nothing of the old player list: before
      the client is shown anything of the new upstream, the unreserved part is empty. */
  lemma {:induction false} SwitchBlockEmpties(
    out: seq<Msg>, order: seq<PlayerListItem>, join: Join, k: nat, mirror: Table, reserved: Uuid -> bool)
    requires 1 <= k <= 6
    requires Outside(ClientTable(out), reserved) == mirror && IsEnumeration(mirror, order)
    ensures Outside(ClientTable(out + SwitchBlock(order, join)[..k]), reserved) == map[]
    decreases k
  {
    hide ApplyItems, Outside, ClientTable, IsEnumeration;
    var block := SwitchBlock(order, join);
    assert out + block[..k] == (out + block[..k - 1]) + [block[k - 1]];
    ClientTableAppend(out + block[..k - 1], block[k - 1]);
    if k == 1 {
      assert out + block[..0] == out;
      RemoveAllEmpties(ClientTable(out), mirror, order, reserved);
    } else {
      SwitchBlockEmpties(out, order, join, k - 1, mirror, reserved);
    }
  }
}
