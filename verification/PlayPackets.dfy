/** The hand-written packets of packets/play_clientbound.go: player list items, tab completion
    and teams. Each has a parser and a serializer as functions, the laws that tie them
    together, and the two loops of the source proved against the functions.

    The parsers are modelled with the errors they ignore: after an ignored error they go on
    with the bytes the failed primitive left. */
module PlayPackets {
  import opened Wire
  import opened StructCodec

  // ---- optional strings ------------------------------------------------------------------

  /** A flag byte and, if the string is not empty, the string. */
  function WriteOptional(t: seq<byte>): seq<byte> {
    WriteBool(t != []) + if t != [] then WriteString(t) else []
  }

  function ReadOptional(s: seq<byte>, maxLength: nat): (r: Read<seq<byte>>)
    ensures |r.value| <= maxLength
  {
    var present := ReadBool(s);
    if present.value then ReadString(present.rest, maxLength) else Read([], present.ok, present.rest)
  }

  lemma OptionalRoundTrip(t: seq<byte>, maxLength: nat, rest: seq<byte>)
    requires |t| <= maxLength && |t| < 0x8000_0000
    ensures ReadOptional(WriteOptional(t) + rest, maxLength) == Read(t, true, rest)
  {
    hide ReadString;
    var tail := if t != [] then WriteString(t) else [];
    assert WriteOptional(t) + rest == WriteBool(t != []) + (tail + rest);
    BoolRoundTrip(t != [], tail + rest);
    if t != [] {
      StringRoundTrip(t, maxLength, rest);
    } else {
      assert tail + rest == rest;
    }
  }

  // ---- short strings ---------------------------------------------------------------------

  /** A string of less than 128 bytes. */
  function Short(t: seq<byte>): seq<byte>
    requires |t| < 0x80
  {
    [|t|] + t
  }

  lemma ShortIsString(t: seq<byte>)
    requires |t| < 0x80
    ensures WriteString(t) == Short(t)
  {
    StringLayout(t);
  }

  function ShortOptional(t: seq<byte>): seq<byte>
    requires |t| < 0x80
  {
    if t == [] then [0] else [1] + Short(t)
  }

  lemma ShortIsOptional(t: seq<byte>)
    requires |t| < 0x80
    ensures WriteOptional(t) == ShortOptional(t)
  {
    ShortIsString(t);
    hide WriteString;
  }

  // ---- player list -----------------------------------------------------------------------

  const ADD_PLAYER: int32 := 0
  const UPDATE_GAME_MODE: int32 := 1
  const UPDATE_LATENCY: int32 := 2
  const UPDATE_DISPLAY_NAME: int32 := 3
  const REMOVE_PLAYER: int32 := 4

  const MAX_NAME := 128
  const MAX_PROPERTIES := 16
  const MAX_TEXT := 32767
  const MAX_ITEMS := 16384

  datatype AuthProperty = AuthProperty(name: seq<byte>, value: seq<byte>, signature: seq<byte>)

  datatype PlayerListItem = PlayerListItem(
    uuid: seq<byte>,
    name: seq<byte>,
    properties: seq<AuthProperty>,
    gameMode: int32,
    ping: int32,
    displayName: seq<byte>
  )

  datatype PlayerList = PlayerList(action: int32, items: seq<PlayerListItem>)

  function BareItem(uuid: seq<byte>): PlayerListItem {
    PlayerListItem(uuid, [], [], 0, 0, [])
  }

  function WriteProperty(p: AuthProperty): seq<byte> {
    WriteString(p.name) + (WriteString(p.value) + WriteOptional(p.signature))
  }

  function WriteProperties(ps: seq<AuthProperty>): seq<byte> {
    if ps == [] then [] else WriteProperty(ps[0]) + WriteProperties(ps[1..])
  }

  /** What follows the UUID of an item. */
  function WriteDetails(action: int32, v: PlayerListItem): seq<byte> {
    if action == ADD_PLAYER then
      WriteString(v.name) + (WriteVarInt(ToSigned(|v.properties|)) + (WriteProperties(v.properties)
      + (WriteVarInt(v.gameMode) + (WriteVarInt(v.ping) + WriteOptional(v.displayName)))))
    else if action == UPDATE_GAME_MODE then WriteVarInt(v.gameMode)
    else if action == UPDATE_LATENCY then WriteVarInt(v.ping)
    else if action == UPDATE_DISPLAY_NAME then WriteOptional(v.displayName)
    else []
  }

  function WriteItem(action: int32, v: PlayerListItem): seq<byte> {
    v.uuid + WriteDetails(action, v)
  }

  function WriteItems(action: int32, items: seq<PlayerListItem>): seq<byte> {
    if items == [] then [] else WriteItem(action, items[0]) + WriteItems(action, items[1..])
  }

  function WritePlayerList(p: PlayerList): seq<byte> {
    WriteVarInt(p.action) + (WriteVarInt(ToSigned(|p.items|)) + WriteItems(p.action, p.items))
  }

  /** The errors of the two strings are ignored. */
  function ReadProperty(s: seq<byte>): Read<AuthProperty> {
    var name := ReadString(s, MAX_TEXT);
    var value := ReadString(name.rest, MAX_TEXT);
    var signature := ReadOptional(value.rest, MAX_TEXT);
    Read(AuthProperty(name.value, value.value, signature.value), signature.ok, signature.rest)
  }

  function ReadProperties(n: nat, s: seq<byte>): (r: Read<seq<AuthProperty>>)
    ensures r.ok ==> |r.value| == n
  {
    if n == 0 then Read([], true, s)
    else
      var head := ReadProperty(s);
      if !head.ok then Read([], false, head.rest)
      else
        var tail := ReadProperties(n - 1, head.rest);
        Read([head.value] + tail.value, tail.ok, tail.rest)
  }

  /** After the properties every error is ignored. */
  function ReadAdded(uuid: seq<byte>, s: seq<byte>): Read<PlayerListItem> {
    var name := ReadString(s, MAX_NAME);
    var count := ReadVarInt(name.rest);
    if !count.ok || count.value < 0 || count.value > MAX_PROPERTIES then Read(BareItem(uuid), false, count.rest)
    else
      var properties := ReadProperties(count.value, count.rest);
      if !properties.ok then Read(BareItem(uuid), false, properties.rest)
      else
        var gameMode := ReadVarInt(properties.rest);
        var ping := ReadVarInt(gameMode.rest);
        var displayName := ReadOptional(ping.rest, MAX_TEXT);
        Read(PlayerListItem(uuid, name.value, properties.value, gameMode.value, ping.value, displayName.value),
             true, displayName.rest)
  }

  function ReadDetails(action: int32, uuid: seq<byte>, s: seq<byte>): Read<PlayerListItem> {
    if action == ADD_PLAYER then ReadAdded(uuid, s)
    else if action == UPDATE_GAME_MODE then
      var r := ReadVarInt(s); Read(BareItem(uuid).(gameMode := r.value), r.ok, r.rest)
    else if action == UPDATE_LATENCY then
      var r := ReadVarInt(s); Read(BareItem(uuid).(ping := r.value), r.ok, r.rest)
    else if action == UPDATE_DISPLAY_NAME then
      var r := ReadOptional(s, MAX_TEXT); Read(BareItem(uuid).(displayName := r.value), r.ok, r.rest)
    else Read(BareItem(uuid), true, s)
  }

  function ReadItem(action: int32, s: seq<byte>): Read<PlayerListItem> {
    var uuid := ReadFull(s, UUID_LENGTH);
    if !uuid.ok then Read(BareItem([]), false, uuid.rest) else ReadDetails(action, uuid.value, uuid.rest)
  }

  function ReadItems(action: int32, n: nat, s: seq<byte>): (r: Read<seq<PlayerListItem>>)
    ensures r.ok ==> |r.value| == n
  {
    if n == 0 then Read([], true, s)
    else
      var head := ReadItem(action, s);
      if !head.ok then Read([], false, head.rest)
      else
        var tail := ReadItems(action, n - 1, head.rest);
        Read([head.value] + tail.value, tail.ok, tail.rest)
  }

  /** The error of the action is overwritten by that of the count. */
  function ReadPlayerList(s: seq<byte>): Read<PlayerList> {
    var action := ReadVarInt(s);
    var count := ReadVarInt(action.rest);
    if !count.ok || count.value < 0 || count.value > MAX_ITEMS then
      Read(PlayerList(action.value, []), false, count.rest)
    else
      var items := ReadItems(action.value, count.value, count.rest);
      Read(PlayerList(action.value, items.value), items.ok, items.rest)
  }

  predicate PropertyInBounds(p: AuthProperty) {
    |p.name| <= MAX_TEXT && |p.value| <= MAX_TEXT && |p.signature| <= MAX_TEXT
  }

  predicate PropertiesInBounds(ps: seq<AuthProperty>) {
    forall i :: 0 <= i < |ps| ==> PropertyInBounds(ps[i])
  }

  /** Within the parser's bounds, with the fields that the action does not carry empty. */
  predicate ItemInBounds(action: int32, v: PlayerListItem) {
    && |v.uuid| == UUID_LENGTH
    && if action == ADD_PLAYER then
         && |v.name| <= MAX_NAME && |v.displayName| <= MAX_TEXT
         && |v.properties| <= MAX_PROPERTIES
         && PropertiesInBounds(v.properties)
       else if action == UPDATE_GAME_MODE then v == BareItem(v.uuid).(gameMode := v.gameMode)
       else if action == UPDATE_LATENCY then v == BareItem(v.uuid).(ping := v.ping)
       else if action == UPDATE_DISPLAY_NAME then
         v == BareItem(v.uuid).(displayName := v.displayName) && |v.displayName| <= MAX_TEXT
       else v == BareItem(v.uuid)
  }

  predicate ItemsInBounds(action: int32, items: seq<PlayerListItem>) {
    forall i :: 0 <= i < |items| ==> ItemInBounds(action, items[i])
  }

  predicate PlayerListInBounds(p: PlayerList) {
    |p.items| <= MAX_ITEMS && ItemsInBounds(p.action, p.items)
  }

  lemma PropertyRoundTrip(p: AuthProperty, rest: seq<byte>)
    requires PropertyInBounds(p)
    ensures ReadProperty(WriteProperty(p) + rest) == Read(p, true, rest)
  {
    hide ReadString, ReadOptional, WriteString, WriteOptional;
    var tail := WriteOptional(p.signature) + rest;
    assert WriteProperty(p) + rest == WriteString(p.name) + (WriteString(p.value) + tail);
    StringRoundTrip(p.name, MAX_TEXT, WriteString(p.value) + tail);
    StringRoundTrip(p.value, MAX_TEXT, tail);
    OptionalRoundTrip(p.signature, MAX_TEXT, rest);
  }

  lemma {:induction false} PropertiesRoundTrip(ps: seq<AuthProperty>, rest: seq<byte>)
    requires PropertiesInBounds(ps)
    ensures ReadProperties(|ps|, WriteProperties(ps) + rest) == Read(ps, true, rest)
  {
    hide ReadProperty, WriteProperty;
    if ps == [] {
      assert WriteProperties(ps) + rest == rest;
    } else {
      var tail := WriteProperties(ps[1..]) + rest;
      assert WriteProperties(ps) + rest == WriteProperty(ps[0]) + tail;
      PropertyRoundTrip(ps[0], tail);
      PropertiesRoundTrip(ps[1..], rest);
      assert ps == [ps[0]] + ps[1..];
    }
  }

  lemma AddedRoundTrip(v: PlayerListItem, rest: seq<byte>)
    requires ItemInBounds(ADD_PLAYER, v)
    ensures ReadAdded(v.uuid, WriteDetails(ADD_PLAYER, v) + rest) == Read(v, true, rest)
  {
    hide ReadString, ReadOptional, WriteString, WriteOptional, ReadVarInt, WriteVarInt, WriteProperties, ReadProperties;
    var t5 := WriteOptional(v.displayName) + rest;
    var t4 := WriteVarInt(v.ping) + t5;
    var t3 := WriteVarInt(v.gameMode) + t4;
    var t2 := WriteProperties(v.properties) + t3;
    var t1 := WriteVarInt(|v.properties|) + t2;
    assert WriteDetails(ADD_PLAYER, v) + rest == WriteString(v.name) + t1;
    StringRoundTrip(v.name, MAX_NAME, t1);
    VarIntRoundTrip(|v.properties|, t2);
    PropertiesRoundTrip(v.properties, t3);
    VarIntRoundTrip(v.gameMode, t4);
    VarIntRoundTrip(v.ping, t5);
    OptionalRoundTrip(v.displayName, MAX_TEXT, rest);
  }

  lemma ItemRoundTrip(action: int32, v: PlayerListItem, rest: seq<byte>)
    requires ItemInBounds(action, v)
    ensures ReadItem(action, WriteItem(action, v) + rest) == Read(v, true, rest)
  {
    hide ReadOptional, WriteOptional, ReadVarInt, WriteVarInt, ReadAdded;
    var tail := WriteDetails(action, v) + rest;
    assert WriteItem(action, v) + rest == v.uuid + tail;
    ReadFullExact(v.uuid, tail);
    if action == ADD_PLAYER {
      AddedRoundTrip(v, rest);
    } else if action == UPDATE_GAME_MODE {
      VarIntRoundTrip(v.gameMode, rest);
    } else if action == UPDATE_LATENCY {
      VarIntRoundTrip(v.ping, rest);
    } else if action == UPDATE_DISPLAY_NAME {
      OptionalRoundTrip(v.displayName, MAX_TEXT, rest);
    } else {
      assert tail == rest;
    }
  }

  lemma {:induction false} ItemsRoundTrip(action: int32, items: seq<PlayerListItem>, rest: seq<byte>)
    requires ItemsInBounds(action, items)
    ensures ReadItems(action, |items|, WriteItems(action, items) + rest) == Read(items, true, rest)
  {
    hide ReadItem, WriteItem, ItemInBounds;
    if items == [] {
      assert WriteItems(action, items) + rest == rest;
    } else {
      var tail := WriteItems(action, items[1..]) + rest;
      assert WriteItems(action, items) + rest == WriteItem(action, items[0]) + tail;
      ItemRoundTrip(action, items[0], tail);
      ItemsRoundTrip(action, items[1..], rest);
      assert items == [items[0]] + items[1..];
    }
  }

  /** Every player list within bounds reads back, for every action. */
  lemma PlayerListRoundTrip(p: PlayerList, rest: seq<byte>)
    requires PlayerListInBounds(p)
    ensures ReadPlayerList(WritePlayerList(p) + rest) == Read(p, true, rest)
  {
    hide ReadVarInt, WriteVarInt, ReadItems, WriteItems, ItemInBounds;
    var t2 := WriteItems(p.action, p.items) + rest;
    var t1 := WriteVarInt(|p.items|) + t2;
    assert WritePlayerList(p) + rest == WriteVarInt(p.action) + t1;
    VarIntRoundTrip(p.action, t1);
    VarIntRoundTrip(|p.items|, t2);
    ItemsRoundTrip(p.action, p.items, rest);
  }

  lemma {:induction false} PropertiesReadInBounds(n: nat, s: seq<byte>)
    ensures PropertiesInBounds(ReadProperties(n, s).value)
  {
    hide ReadString, ReadOptional;
    if n > 0 {
      PropertiesReadInBounds(n - 1, ReadProperty(s).rest);
    }
  }

  lemma ItemReadInBounds(action: int32, s: seq<byte>)
    requires ReadItem(action, s).ok
    ensures ItemInBounds(action, ReadItem(action, s).value)
  {
    hide ReadString, ReadOptional, ReadVarInt, ReadProperties;
    if action == ADD_PLAYER {
      var name := ReadString(s[UUID_LENGTH..], MAX_NAME);
      var count := ReadVarInt(name.rest);
      PropertiesReadInBounds(count.value, count.rest);
    }
  }

  lemma {:induction false} ItemsReadInBounds(action: int32, n: nat, s: seq<byte>)
    requires ReadItems(action, n, s).ok
    ensures ItemsInBounds(action, ReadItems(action, n, s).value)
  {
    hide ReadItem, ItemInBounds;
    if n > 0 {
      ItemReadInBounds(action, s);
      ItemsReadInBounds(action, n - 1, ReadItem(action, s).rest);
    }
  }

  /** Whatever input was accepted, normal or not: encoding the result and decoding it again
      gives the same value. */
  lemma PlayerListReencodes(s: seq<byte>, rest: seq<byte>)
    requires ReadPlayerList(s).ok
    ensures var p := ReadPlayerList(s).value;
      PlayerListInBounds(p) && ReadPlayerList(WritePlayerList(p) + rest) == Read(p, true, rest)
  {
    hide ReadVarInt, ReadItems, ItemInBounds;
    var action := ReadVarInt(s);
    var count := ReadVarInt(action.rest);
    ItemsReadInBounds(action.value, count.value, count.rest);
    PlayerListRoundTrip(ReadPlayerList(s).value, rest);
  }

  /** What a packet carries of an item: its UUID and the fields of the action. */
  function Carried(action: int32, v: PlayerListItem): PlayerListItem {
    if action == ADD_PLAYER then v
    else if action == UPDATE_GAME_MODE then BareItem(v.uuid).(gameMode := v.gameMode)
    else if action == UPDATE_LATENCY then BareItem(v.uuid).(ping := v.ping)
    else if action == UPDATE_DISPLAY_NAME then BareItem(v.uuid).(displayName := v.displayName)
    else BareItem(v.uuid)
  }

  function CarriedAll(action: int32, items: seq<PlayerListItem>): (r: seq<PlayerListItem>)
    ensures |r| == |items| && forall i :: 0 <= i < |r| ==> r[i] == Carried(action, items[i])
  {
    if items == [] then [] else [Carried(action, items[0])] + CarriedAll(action, items[1..])
  }

  function CarriedForm(p: PlayerList): PlayerList {
    p.(items := CarriedAll(p.action, p.items))
  }

  /** Two lists with the same carried form have the same bytes. */
  lemma {:induction false} CarriedWrites(action: int32, items: seq<PlayerListItem>)
    ensures WriteItems(action, CarriedAll(action, items)) == WriteItems(action, items)
  {
    hide WriteString, WriteOptional, WriteVarInt, WriteProperties;
    if items != [] {
      CarriedWrites(action, items[1..]);
      assert CarriedAll(action, items)[1..] == CarriedAll(action, items[1..]);
      assert WriteItem(action, Carried(action, items[0])) == WriteItem(action, items[0]);
    }
  }

  /** Within bounds, an item is nothing but what the action carries of it. */
  lemma CarriedInBounds(p: PlayerList)
    ensures PlayerListInBounds(p) <==> PlayerListInBounds(CarriedForm(p)) && CarriedForm(p) == p
  {
    hide PropertiesInBounds;
    if PlayerListInBounds(p) {
      assert CarriedAll(p.action, p.items) == p.items;
    }
  }

  /** What any list reads back as, whatever its items hold: its carried form, exactly if that is
      within the parser's bounds; and the list itself, exactly if it is its own carried form as
      well. */
  lemma PlayerListReadsBackExactly(p: PlayerList, rest: seq<byte>)
    ensures var r, c := ReadPlayerList(WritePlayerList(p) + rest), CarriedForm(p);
      && (PlayerListInBounds(c) ==> r == Read(c, true, rest))
      && (Returned(r, c) ==> PlayerListInBounds(c))
      && (Returned(r, p) <==> PlayerListInBounds(c) && c == p)
  {
    hide ReadPlayerList, WriteItems, CarriedAll, PlayerListInBounds;
    var s := WritePlayerList(p) + rest;
    CarriedWrites(p.action, p.items);
    assert WritePlayerList(CarriedForm(p)) == WritePlayerList(p);
    CarriedInBounds(p);
    if PlayerListInBounds(CarriedForm(p)) {
      PlayerListRoundTrip(CarriedForm(p), rest);
    }
    if ReadPlayerList(s).ok {
      PlayerListReencodes(s, rest);
    }
  }

  // the bytes of short lists

  function PropertyBytes(ps: seq<AuthProperty>): seq<byte>
    requires forall p <- ps :: |p.name| < 0x80 && |p.value| < 0x80 && |p.signature| < 0x80
  {
    if ps == [] then []
    else Short(ps[0].name) + Short(ps[0].value) + ShortOptional(ps[0].signature) + PropertyBytes(ps[1..])
  }

  predicate IsShort(v: PlayerListItem) {
    && |v.name| < 0x80 && |v.displayName| < 0x80 && |v.properties| < 0x80
    && 0 <= v.gameMode < 0x80 && 0 <= v.ping < 0x80
    && forall p <- v.properties :: |p.name| < 0x80 && |p.value| < 0x80 && |p.signature| < 0x80
  }

  /** An item by its action: addition, game mode, latency, display name, removal. */
  function ItemBytes(action: int, v: PlayerListItem): seq<byte>
    requires IsShort(v)
  {
    match action
    case 0 =>
      v.uuid + Short(v.name) + [|v.properties|] + PropertyBytes(v.properties)
      + [v.gameMode, v.ping] + ShortOptional(v.displayName)
    case 1 => v.uuid + [v.gameMode]
    case 2 => v.uuid + [v.ping]
    case 3 => v.uuid + ShortOptional(v.displayName)
    case _ => v.uuid
  }

  function ItemsBytes(action: int, items: seq<PlayerListItem>): seq<byte>
    requires forall v <- items :: IsShort(v)
  {
    if items == [] then [] else ItemBytes(action, items[0]) + ItemsBytes(action, items[1..])
  }

  lemma {:induction false} PropertiesLayout(ps: seq<AuthProperty>)
    requires forall p <- ps :: |p.name| < 0x80 && |p.value| < 0x80 && |p.signature| < 0x80
    ensures WriteProperties(ps) == PropertyBytes(ps)
  {
    hide WriteString, WriteOptional, Short, ShortOptional;
    if ps != [] {
      ShortIsString(ps[0].name);
      ShortIsString(ps[0].value);
      ShortIsOptional(ps[0].signature);
      PropertiesLayout(ps[1..]);
    }
  }

  lemma ItemLayout(action: int32, v: PlayerListItem)
    requires IsShort(v)
    ensures WriteItem(action, v) == ItemBytes(action, v)
  {
    hide WriteString, WriteOptional, WriteVarInt, WriteProperties, Short, ShortOptional, PropertyBytes;
    ShortIsString(v.name);
    ShortIsOptional(v.displayName);
    ShortVarInt(|v.properties|);
    ShortVarInt(v.gameMode);
    ShortVarInt(v.ping);
    PropertiesLayout(v.properties);
  }

  lemma {:induction false} ItemsLayout(action: int32, items: seq<PlayerListItem>)
    requires forall v <- items :: IsShort(v)
    ensures WriteItems(action, items) == ItemsBytes(action, items)
  {
    hide WriteItem, ItemBytes, IsShort;
    if items != [] {
      ItemLayout(action, items[0]);
      ItemsLayout(action, items[1..]);
    }
  }

  /** A player list of short values, byte by byte: action, count, and for each item its UUID and what
      the action asks for. */
  lemma PlayerListLayout(p: PlayerList)
    requires 0 <= p.action < 0x80 && |p.items| < 0x80 && forall v <- p.items :: IsShort(v)
    ensures WritePlayerList(p) == [p.action, |p.items|] + ItemsBytes(p.action, p.items)
  {
    hide WriteVarInt, WriteItems, ItemsBytes, IsShort;
    ShortVarInt(p.action);
    ShortVarInt(|p.items|);
    ItemsLayout(p.action, p.items);
  }

  /** An addition that ends behind its property count is taken: the errors behind it are ignored. */
  lemma TruncatedAdditionAccepted(uuid: seq<byte>)
    requires |uuid| == 16
    ensures ReadPlayerList([0, 1] + uuid + [0, 0])
            == Read(PlayerList(0, [PlayerListItem(uuid, [], [], 0, 0, [])]), true, [])
  {
    var tail := uuid + [0, 0];
    var s := [0, 1] + uuid + [0, 0];
    ShortVarInt(0);
    ShortVarInt(1);
    assert s == WriteVarInt(0) + (WriteVarInt(1) + tail);
    VarIntRoundTrip(0, WriteVarInt(1) + tail);
    VarIntRoundTrip(1, tail);
    OneTruncated(uuid);
    hide ReadVarInt, ReadItems;
  }

  lemma OneTruncated(uuid: seq<byte>)
    requires |uuid| == 16
    ensures ReadItems(ADD_PLAYER, 1, uuid + [0, 0]) == Read([BareItem(uuid)], true, [])
  {
    ReadFullExact(uuid, [0, 0]);
    TruncatedAdded(uuid);
    hide ReadAdded;
    assert ReadItem(ADD_PLAYER, uuid + [0, 0]) == Read(BareItem(uuid), true, []);
    hide ReadItem, ReadItems;
    PlayerListItemPacketCB.ReadItemsStep(ADD_PLAYER, 1, uuid + [0, 0]);
    PlayerListItemPacketCB.ReadItemsStep(ADD_PLAYER, 0, []);
    assert [BareItem(uuid)] + [] == [BareItem(uuid)];
  }

  lemma TruncatedAdded(uuid: seq<byte>)
    ensures ReadAdded(uuid, [0, 0]) == Read(BareItem(uuid), true, [])
  {
    ShortVarInt(0);
    assert [0, 0] == WriteString([]) + [0] && [0] == WriteVarInt(0) + [];
    StringRoundTrip([], MAX_NAME, [0]);
    VarIntRoundTrip(0, []);
    NothingRead();
    hide ReadVarInt, ReadString, ReadOptional;
  }

  lemma NothingRead()
    ensures ReadVarInt([]) == Read(0, false, []) && ReadOptional([], MAX_TEXT) == Read([], false, [])
  {
  }

  class PlayerListItemPacketCB {
    var action: int32
    var items: seq<PlayerListItem>

    function Value(): PlayerList
      reads this
    {
      PlayerList(action, items)
    }

    method Parse(input: seq<byte>) returns (ok: bool, rest: seq<byte>)
      modifies this
      ensures var r := ReadPlayerList(input);
        ok == r.ok && rest == r.rest && (ok ==> Value() == r.value)
    {
      hide ReadItem, ReadItems;
      var first := ReadVarInt(input);
      action := first.value;
      var count := ReadVarInt(first.rest);
      rest := count.rest;
      if !count.ok || count.value < 0 || count.value > MAX_ITEMS {
        ok := false;
        return;
      }
      ok, rest := ParseItems(count.value, rest);
    }

    /** The loop over the items. */
    method ParseItems(count: nat, input: seq<byte>) returns (ok: bool, rest: seq<byte>)
      modifies `items
      ensures var r := ReadItems(action, count, input);
        ok == r.ok && rest == r.rest && (ok ==> items == r.value)
    {
      hide ReadItem, ReadItems;
      ghost var whole := ReadItems(action, count, input);
      items, ok, rest := [], true, input;
      for i := 0 to count
        invariant ok
        invariant var tail := ReadItems(action, count - i, rest);
          && whole.ok == tail.ok && whole.rest == tail.rest
          && (whole.ok ==> whole.value == items + tail.value)
      {
        ReadItemsStep(action, count - i, rest);
        var v := ReadItem(action, rest);
        rest := v.rest;
        if !v.ok {
          ok := false;
          return;
        }
        items := items + [v.value];
      }
      ReadItemsStep(action, 0, rest);
    }

    method Serialize() returns (out: seq<byte>)
      ensures out == WritePlayerList(Value())
    {
      hide WriteItem;
      out := WriteVarInt(action) + WriteVarInt(ToSigned(|items|));
      for i := 0 to |items|
        invariant WritePlayerList(Value()) == out + WriteItems(action, items[i..])
      {
        assert items[i..][1..] == items[i + 1..];
        out := out + WriteItem(action, items[i]);
      }
    }

    static lemma ReadItemsStep(action: int32, n: nat, s: seq<byte>)
      ensures var whole := ReadItems(action, n, s);
        if n == 0 then whole == Read([], true, s)
        else
          var head := ReadItem(action, s);
          if !head.ok then !whole.ok && whole.rest == head.rest
          else
            var tail := ReadItems(action, n - 1, head.rest);
            whole == Read([head.value] + tail.value, tail.ok, tail.rest)
    {
      hide ReadItem;
    }
  }

  // ---- tab completion --------------------------------------------------------------------

  const MAX_MATCHES := 32767
  const MAX_MATCH_TEXT := 4096

  datatype Match = Match(text: seq<byte>, tooltip: seq<byte>)

  datatype TabComplete = TabComplete(
    transactionId: int32, start: int32, length: int32, count: int32, matches: seq<Match>)

  /** The struct fields of the packet; Matches is ignored by the struct codec. */
  const TAB_SCHEMA: seq<Field> := [VarIntField, VarIntField, VarIntField, VarIntField, IgnoredField]

  const NO_COMPLETION := TabComplete(0, 0, 0, 0, [])

  function TabFields(p: TabComplete): (values: seq<Value>)
    ensures Typed(TAB_SCHEMA, values) && Bounded(TAB_SCHEMA, values)
  {
    [Num(p.transactionId), Num(p.start), Num(p.length), Num(p.count), Text([])]
  }

  function FromTabFields(values: seq<Value>, matches: seq<Match>): TabComplete
    requires Typed(TAB_SCHEMA, values)
  {
    assert forall i :: 0 <= i < 4 ==> HasType(TAB_SCHEMA[i], values[i]) && TAB_SCHEMA[i] == VarIntField;
    TabComplete(values[0].n, values[1].n, values[2].n, values[3].n, matches)
  }

  function WriteMatch(m: Match): seq<byte> {
    WriteString(m.text) + WriteOptional(m.tooltip)
  }

  function WriteMatches(ms: seq<Match>): seq<byte> {
    if ms == [] then [] else WriteMatch(ms[0]) + WriteMatches(ms[1..])
  }

  /** Serialize first sets Count to the number of matches. */
  function Counted(p: TabComplete): TabComplete {
    p.(count := ToSigned(|p.matches|))
  }

  function WriteTabComplete(p: TabComplete): seq<byte> {
    WriteStruct(TAB_SCHEMA, TabFields(Counted(p))) + WriteMatches(p.matches)
  }

  function ReadMatch(s: seq<byte>): Read<Match> {
    var text := ReadString(s, MAX_MATCH_TEXT);
    if !text.ok then Read(Match([], []), false, text.rest)
    else
      var tooltip := ReadOptional(text.rest, MAX_MATCH_TEXT);
      Read(Match(text.value, tooltip.value), tooltip.ok, tooltip.rest)
  }

  function ReadMatches(n: nat, s: seq<byte>): (r: Read<seq<Match>>)
    ensures r.ok ==> |r.value| == n
  {
    if n == 0 then Read([], true, s)
    else
      var head := ReadMatch(s);
      if !head.ok then Read([], false, head.rest)
      else
        var tail := ReadMatches(n - 1, head.rest);
        Read([head.value] + tail.value, tail.ok, tail.rest)
  }

  function ReadTabHeader(s: seq<byte>): Read<TabComplete> {
    var head := ReadStruct(TAB_SCHEMA, TabFields(NO_COMPLETION), s);
    if !head.ok then Read(NO_COMPLETION, false, head.rest)
    else
      StructReadInRange(TAB_SCHEMA, TabFields(NO_COMPLETION), s);
      Read(FromTabFields(head.value, []), true, head.rest)
  }

  /** A count below one ends the packet without an error. */
  function ReadTabComplete(s: seq<byte>): Read<TabComplete> {
    var head := ReadTabHeader(s);
    if !head.ok || head.value.count < 1 then head
    else if head.value.count > MAX_MATCHES then Read(head.value, false, head.rest)
    else
      var matches := ReadMatches(head.value.count, head.rest);
      Read(head.value.(matches := matches.value), matches.ok, matches.rest)
  }

  predicate MatchInBounds(m: Match) {
    |m.text| <= MAX_MATCH_TEXT && |m.tooltip| <= MAX_MATCH_TEXT
  }

  predicate MatchesInBounds(ms: seq<Match>) {
    forall i :: 0 <= i < |ms| ==> MatchInBounds(ms[i])
  }

  predicate TabCompleteInBounds(p: TabComplete) {
    |p.matches| <= MAX_MATCHES && MatchesInBounds(p.matches)
  }

  lemma MatchRoundTrip(m: Match, rest: seq<byte>)
    requires MatchInBounds(m)
    ensures ReadMatch(WriteMatch(m) + rest) == Read(m, true, rest)
  {
    hide ReadString, ReadOptional, WriteString, WriteOptional;
    assert WriteMatch(m) + rest == WriteString(m.text) + (WriteOptional(m.tooltip) + rest);
    StringRoundTrip(m.text, MAX_MATCH_TEXT, WriteOptional(m.tooltip) + rest);
    OptionalRoundTrip(m.tooltip, MAX_MATCH_TEXT, rest);
  }

  lemma {:induction false} MatchesRoundTrip(ms: seq<Match>, rest: seq<byte>)
    requires MatchesInBounds(ms)
    ensures ReadMatches(|ms|, WriteMatches(ms) + rest) == Read(ms, true, rest)
  {
    hide ReadMatch, WriteMatch;
    if ms == [] {
      assert WriteMatches(ms) + rest == rest;
    } else {
      var tail := WriteMatches(ms[1..]) + rest;
      assert WriteMatches(ms) + rest == WriteMatch(ms[0]) + tail;
      MatchRoundTrip(ms[0], tail);
      MatchesRoundTrip(ms[1..], rest);
      assert ms == [ms[0]] + ms[1..];
    }
  }

  lemma {:induction false} MatchesReadInBounds(n: nat, s: seq<byte>)
    ensures MatchesInBounds(ReadMatches(n, s).value)
  {
    hide ReadString, ReadOptional;
    if n > 0 {
      MatchesReadInBounds(n - 1, ReadMatch(s).rest);
    }
  }

  lemma TabHeaderRoundTrip(p: TabComplete, rest: seq<byte>)
    ensures ReadTabHeader(WriteStruct(TAB_SCHEMA, TabFields(p)) + rest) == Read(p.(matches := []), true, rest)
  {
    hide ReadStruct, WriteStruct;
    StructRoundTrip(TAB_SCHEMA, TabFields(NO_COMPLETION), TabFields(p), rest);
    MergedTabFields(TabFields(NO_COMPLETION), TabFields(p));
  }

  lemma MergedTabFields(before: seq<Value>, values: seq<Value>)
    requires |before| == |values| == |TAB_SCHEMA|
    ensures Merged(TAB_SCHEMA, before, values) == values[..4] + [before[4]]
  {
    hide Merged;
    MergedAt(TAB_SCHEMA, before, values, 0);
    MergedAt(TAB_SCHEMA, before, values, 1);
    MergedAt(TAB_SCHEMA, before, values, 2);
    MergedAt(TAB_SCHEMA, before, values, 3);
    MergedAt(TAB_SCHEMA, before, values, 4);
  }

  /** Every completion within bounds reads back with Count set to the number of matches. */
  lemma TabCompleteRoundTrip(p: TabComplete, rest: seq<byte>)
    requires TabCompleteInBounds(p)
    ensures ReadTabComplete(WriteTabComplete(p) + rest) == Read(Counted(p), true, rest)
  {
    hide ReadTabHeader, WriteStruct, ReadMatch, WriteMatch, ReadMatches, WriteMatches;
    var tail := WriteMatches(p.matches) + rest;
    assert WriteTabComplete(p) + rest == WriteStruct(TAB_SCHEMA, TabFields(Counted(p))) + tail;
    TabHeaderRoundTrip(Counted(p), tail);
    MatchesRoundTrip(p.matches, rest);
    if p.matches == [] {
      NoMatches(rest);
    }
  }

  lemma NoMatches(rest: seq<byte>)
    ensures WriteMatches([]) + rest == rest && ReadMatches(0, rest) == Read([], true, rest)
  {
    assert [] + rest == rest;
  }

  /** Decoding, encoding and decoding again gives the same value exactly when the decoded
      count was not negative: a negative count is accepted and becomes zero. */
  lemma TabCompleteReencodesExactly(s: seq<byte>, rest: seq<byte>)
    requires ReadTabComplete(s).ok
    ensures var p := ReadTabComplete(s).value;
      ReadTabComplete(WriteTabComplete(p) + rest) == Read(p, true, rest) <==> p.count >= 0
  {
    hide ReadTabHeader, WriteTabComplete, ReadMatches;
    var head := ReadTabHeader(s);
    var p := ReadTabComplete(s).value;
    TabHeaderHasNoMatches(s);
    if head.value.count >= 1 {
      MatchesReadInBounds(head.value.count, head.rest);
    }
    TabCompleteRoundTrip(p, rest);
  }

  lemma TabHeaderHasNoMatches(s: seq<byte>)
    ensures ReadTabHeader(s).value.matches == []
  {
    hide ReadStruct;
  }

  function MatchBytes(ms: seq<Match>): seq<byte>
    requires forall m <- ms :: |m.text| < 0x80 && |m.tooltip| < 0x80
  {
    if ms == [] then [] else Short(ms[0].text) + ShortOptional(ms[0].tooltip) + MatchBytes(ms[1..])
  }

  lemma {:induction false} MatchesLayout(ms: seq<Match>)
    requires forall m <- ms :: |m.text| < 0x80 && |m.tooltip| < 0x80
    ensures WriteMatches(ms) == MatchBytes(ms)
  {
    hide WriteString, WriteOptional, Short, ShortOptional;
    if ms != [] {
      ShortIsString(ms[0].text);
      ShortIsOptional(ms[0].tooltip);
      MatchesLayout(ms[1..]);
    }
  }

  /** A completion of short values, byte by byte; the count is that of the matches. */
  lemma TabCompleteLayout(p: TabComplete)
    requires 0 <= p.transactionId < 0x80 && 0 <= p.start < 0x80 && 0 <= p.length < 0x80 && |p.matches| < 0x80
    requires forall m <- p.matches :: |m.text| < 0x80 && |m.tooltip| < 0x80
    ensures WriteTabComplete(p) == [p.transactionId, p.start, p.length, |p.matches|] + MatchBytes(p.matches)
  {
    hide WriteMatches, MatchBytes;
    MatchesLayout(p.matches);
    TabHeaderLayout(Counted(p));
  }

  lemma VarIntWritten(c: int32)
    ensures HasType(VarIntField, Num(c)) && WriteField(VarIntField, Num(c)) == WriteVarInt(c)
  {
  }

  lemma TabHeaderLayout(p: TabComplete)
    requires 0 <= p.transactionId < 0x80 && 0 <= p.start < 0x80 && 0 <= p.length < 0x80 && 0 <= p.count < 0x80
    ensures WriteStruct(TAB_SCHEMA, TabFields(p)) == [p.transactionId, p.start, p.length, p.count]
  {
    var schema, values := TAB_SCHEMA, TabFields(p);
    ShortVarInt(p.transactionId);
    ShortVarInt(p.start);
    ShortVarInt(p.length);
    ShortVarInt(p.count);
    hide WriteVarInt;
    VarIntWritten(p.transactionId);
    VarIntWritten(p.start);
    VarIntWritten(p.length);
    VarIntWritten(p.count);
    hide WriteStruct, WriteField, HasType, InBounds;
    WriteStructStep(schema, values);
    WriteStructStep(schema[1..], values[1..]);
    WriteStructStep(schema[2..], values[2..]);
    WriteStructStep(schema[3..], values[3..]);
    WriteStructStep(schema[4..], values[4..]);
    EmptyStruct(schema[5..], values[5..], []);
    assert schema[1..][1..] == schema[2..] && values[1..][1..] == values[2..];
    assert schema[2..][1..] == schema[3..] && values[2..][1..] == values[3..];
    assert schema[3..][1..] == schema[4..] && values[3..][1..] == values[4..];
    assert schema[4..][1..] == schema[5..] && values[4..][1..] == values[5..];
  }

  class TabCompletePacketCB {
    var packet: TabComplete

    /** Parse fills a new packet: before it, all fields are zero. */
    method Parse(input: seq<byte>) returns (ok: bool, rest: seq<byte>)
      requires packet == NO_COMPLETION
      modifies this
      ensures var r := ReadTabComplete(input);
        ok == r.ok && rest == r.rest && (ok ==> packet == r.value)
    {
      hide ReadTabHeader, ReadMatch, ReadMatches;
      TabHeaderHasNoMatches(input);
      var head := ReadTabHeader(input);
      packet, ok, rest := head.value, head.ok, head.rest;
      if !ok || packet.count < 1 {
        return;
      }
      if packet.count > MAX_MATCHES {
        ok := false;
        return;
      }
      ghost var whole := ReadMatches(packet.count, rest);
      var matches := [];
      for i := 0 to packet.count
        invariant ok && packet == head.value
        invariant var tail := ReadMatches(packet.count - i, rest);
          && whole.ok == tail.ok && whole.rest == tail.rest
          && (whole.ok ==> whole.value == matches + tail.value)
      {
        ReadMatchesStep(packet.count - i, rest);
        var m := ReadMatch(rest);
        rest := m.rest;
        if !m.ok {
          ok := false;
          return;
        }
        matches := matches + [m.value];
      }
      ReadMatchesStep(0, rest);
      packet := packet.(matches := matches);
    }

    method Serialize() returns (out: seq<byte>)
      modifies this
      ensures packet == Counted(old(packet))
      ensures out == WriteTabComplete(old(packet)) == WriteTabComplete(packet)
    {
      hide WriteMatch, WriteStruct, TabFields;
      packet := packet.(count := ToSigned(|packet.matches|));
      out := WriteStruct(TAB_SCHEMA, TabFields(packet));
      for i := 0 to |packet.matches|
        invariant WriteTabComplete(packet) == out + WriteMatches(packet.matches[i..])
      {
        assert packet.matches[i..][1..] == packet.matches[i + 1..];
        out := out + WriteMatch(packet.matches[i]);
      }
    }

    static lemma ReadMatchesStep(n: nat, s: seq<byte>)
      ensures var whole := ReadMatches(n, s);
        if n == 0 then whole == Read([], true, s)
        else
          var head := ReadMatch(s);
          if !head.ok then !whole.ok && whole.rest == head.rest
          else
            var tail := ReadMatches(n - 1, head.rest);
            whole == Read([head.value] + tail.value, tail.ok, tail.rest)
    {
      hide ReadMatch;
    }
  }

  // ---- teams -----------------------------------------------------------------------------

  const MAX_TEAM_NAME := 64
  const MAX_AFFIX := 16
  const MAX_PLAYERS := 1024

  datatype Teams = Teams(
    name: seq<byte>, mode: byte,
    displayName: seq<byte>, prefix: seq<byte>, suffix: seq<byte>, friendlyFire: int,
    players: seq<seq<byte>>)

  predicate HasInfo(mode: int) {
    mode == 0 || mode == 2
  }

  predicate HasPlayers(mode: int) {
    mode == 0 || mode == 3 || mode == 4
  }

  function WriteInfo(p: Teams): seq<byte>
    requires SignedRange(p.friendlyFire, 1)
  {
    Powers256();
    WriteString(p.displayName) + (WriteString(p.prefix) + (WriteString(p.suffix)
    + BigEndian(Unsign(p.friendlyFire, 1), 1)))
  }

  function WriteNames(names: seq<seq<byte>>): seq<byte> {
    if names == [] then [] else WriteString(names[0]) + WriteNames(names[1..])
  }

  predicate Serializable(p: Teams) {
    HasPlayers(p.mode) ==> |p.players| <= MAX_PLAYERS
  }

  function WriteTeams(p: Teams): seq<byte>
    requires SignedRange(p.friendlyFire, 1) && Serializable(p)
  {
    WriteString(p.name) + ([p.mode]
    + ((if HasInfo(p.mode) then WriteInfo(p) else [])
    + (if HasPlayers(p.mode) then BigEndian(|p.players|, 2) + WriteNames(p.players) else [])))
  }

  function ReadNames(n: nat, s: seq<byte>): (r: Read<seq<seq<byte>>>)
    ensures r.ok ==> |r.value| == n
  {
    if n == 0 then Read([], true, s)
    else
      var head := ReadString(s, MAX_AFFIX);
      if !head.ok then Read([], false, head.rest)
      else
        var tail := ReadNames(n - 1, head.rest);
        Read([head.value] + tail.value, tail.ok, tail.rest)
  }

  /** Only the error of the last primitive, FriendlyFire, is looked at. */
  function ReadInfo(p: Teams, s: seq<byte>): Read<Teams> {
    var displayName := ReadString(s, MAX_TEAM_NAME);
    var prefix := ReadString(displayName.rest, MAX_AFFIX);
    var suffix := ReadString(prefix.rest, MAX_AFFIX);
    var fire := ReadNumber(suffix.rest, 1);
    Read(p.(displayName := displayName.value, prefix := prefix.value, suffix := suffix.value,
            friendlyFire := Resign(fire.value, 1)), fire.ok, fire.rest)
  }

  function ReadPlayers(p: Teams, s: seq<byte>): Read<Teams> {
    var count := ReadNumber(s, 2);
    var n := Resign(count.value, 2);
    if !count.ok || n < 0 || n > MAX_PLAYERS then Read(p, false, count.rest)
    else
      var names := ReadNames(n, count.rest);
      Read(p.(players := names.value), names.ok, names.rest)
  }

  function ReadTeams(s: seq<byte>): Read<Teams> {
    var name := ReadString(s, MAX_TEAM_NAME);
    var mode := if name.rest == [] then Read(0, false, []) else Read(name.rest[0], true, name.rest[1..]);
    var bare := Teams(name.value, mode.value, [], [], [], 0, []);
    var info := if HasInfo(mode.value) then ReadInfo(bare, mode.rest) else Read(bare, mode.ok, mode.rest);
    if !info.ok then info
    else if HasPlayers(mode.value) then ReadPlayers(info.value, info.rest)
    else info
  }

  predicate NamesInBounds(names: seq<seq<byte>>) {
    forall i :: 0 <= i < |names| ==> |names[i]| <= MAX_AFFIX
  }

  predicate TeamsInBounds(p: Teams) {
    && |p.name| <= MAX_TEAM_NAME
    && SignedRange(p.friendlyFire, 1)
    && (if HasInfo(p.mode) then
          |p.displayName| <= MAX_TEAM_NAME && |p.prefix| <= MAX_AFFIX && |p.suffix| <= MAX_AFFIX
        else p.displayName == p.prefix == p.suffix == [] && p.friendlyFire == 0)
    && (if HasPlayers(p.mode) then
          |p.players| <= MAX_PLAYERS && NamesInBounds(p.players)
        else p.players == [])
  }

  lemma {:induction false} NamesRoundTrip(names: seq<seq<byte>>, rest: seq<byte>)
    requires NamesInBounds(names)
    ensures ReadNames(|names|, WriteNames(names) + rest) == Read(names, true, rest)
  {
    hide ReadString, WriteString;
    if names == [] {
      assert WriteNames(names) + rest == rest;
    } else {
      var tail := WriteNames(names[1..]) + rest;
      assert WriteNames(names) + rest == WriteString(names[0]) + tail;
      StringRoundTrip(names[0], MAX_AFFIX, tail);
      NamesRoundTrip(names[1..], rest);
      assert names == [names[0]] + names[1..];
    }
  }

  lemma InfoRoundTrip(bare: Teams, p: Teams, rest: seq<byte>)
    requires TeamsInBounds(p) && HasInfo(p.mode)
    requires bare == p.(displayName := [], prefix := [], suffix := [], friendlyFire := 0, players := [])
    ensures ReadInfo(bare, WriteInfo(p) + rest) == Read(p.(players := []), true, rest)
  {
    hide ReadString, WriteString, ReadNumber, BigEndian;
    Powers256();
    var t3 := BigEndian(Unsign(p.friendlyFire, 1), 1) + rest;
    var t2 := WriteString(p.suffix) + t3;
    var t1 := WriteString(p.prefix) + t2;
    assert WriteInfo(p) + rest == WriteString(p.displayName) + t1;
    StringRoundTrip(p.displayName, MAX_TEAM_NAME, t1);
    StringRoundTrip(p.prefix, MAX_AFFIX, t2);
    StringRoundTrip(p.suffix, MAX_AFFIX, t3);
    NumberRoundTrip(Unsign(p.friendlyFire, 1), 1, rest);
  }

  lemma PlayersRoundTrip(p: Teams, rest: seq<byte>)
    requires TeamsInBounds(p) && HasPlayers(p.mode)
    ensures ReadPlayers(p.(players := []), BigEndian(|p.players|, 2) + WriteNames(p.players) + rest)
            == Read(p, true, rest)
  {
    hide ReadNames, WriteNames, ReadNumber, BigEndian;
    Powers256();
    var tail := WriteNames(p.players) + rest;
    assert BigEndian(|p.players|, 2) + WriteNames(p.players) + rest == BigEndian(|p.players|, 2) + tail;
    NumberRoundTrip(|p.players|, 2, tail);
    NamesRoundTrip(p.players, rest);
  }

  /** Every team packet within bounds reads back, for every mode. */
  lemma TeamsRoundTrip(p: Teams, rest: seq<byte>)
    requires TeamsInBounds(p)
    ensures ReadTeams(WriteTeams(p) + rest) == Read(p, true, rest)
  {
    hide ReadString, WriteString, ReadInfo, WriteInfo, ReadPlayers, WriteNames, BigEndian;
    var players := if HasPlayers(p.mode) then BigEndian(|p.players|, 2) + WriteNames(p.players) else [];
    var info := if HasInfo(p.mode) then WriteInfo(p) else [];
    var t2 := players + rest;
    var t1 := info + t2;
    assert WriteTeams(p) + rest == WriteString(p.name) + ([p.mode] + t1);
    StringRoundTrip(p.name, MAX_TEAM_NAME, [p.mode] + t1);
    assert ([p.mode] + t1)[1..] == t1;
    if HasInfo(p.mode) {
      InfoRoundTrip(Teams(p.name, p.mode, [], [], [], 0, []), p, t2);
    } else {
      assert t1 == t2;
    }
    if HasPlayers(p.mode) {
      PlayersRoundTrip(p, rest);
    } else {
      assert t2 == rest;
    }
  }

  lemma {:induction false} NamesReadInBounds(n: nat, s: seq<byte>)
    ensures NamesInBounds(ReadNames(n, s).value)
  {
    hide ReadString;
    if n > 0 {
      NamesReadInBounds(n - 1, ReadString(s, MAX_AFFIX).rest);
    }
  }

  /** Whatever team packet was accepted can be encoded, and decodes to the same value again. */
  lemma TeamsReencodes(s: seq<byte>, rest: seq<byte>)
    requires ReadTeams(s).ok
    ensures var p := ReadTeams(s).value;
      TeamsInBounds(p) && ReadTeams(WriteTeams(p) + rest) == Read(p, true, rest)
  {
    hide ReadString, ReadNames, ReadNumber;
    Powers256();
    var p := ReadTeams(s).value;
    var name := ReadString(s, MAX_TEAM_NAME);
    if name.rest != [] {
      var bare := Teams(name.value, name.rest[0], [], [], [], 0, []);
      var info := if HasInfo(bare.mode) then ReadInfo(bare, name.rest[1..]) else Read(bare, true, name.rest[1..]);
      if HasInfo(bare.mode) {
        var suffix := ReadString(ReadString(ReadString(name.rest[1..], MAX_TEAM_NAME).rest, MAX_AFFIX).rest, MAX_AFFIX);
        NumberReadInRange(suffix.rest, 1);
      }
      if HasPlayers(bare.mode) {
        var count := ReadNumber(info.rest, 2);
        NamesReadInBounds(Resign(count.value, 2), count.rest);
      }
    }
    if name.rest == [] {
      var suffix := ReadString(ReadString(ReadString([], MAX_TEAM_NAME).rest, MAX_AFFIX).rest, MAX_AFFIX);
      assert suffix.rest == [];
      NoNumberInNothing();
    }
    TeamsRoundTrip(p, rest);
  }

  lemma NoNumberInNothing()
    ensures !ReadNumber([], 1).ok
  {
  }

  // the bytes, mode by mode

  function Shorts(names: seq<seq<byte>>): seq<byte>
    requires forall i :: 0 <= i < |names| ==> |names[i]| < 0x80
  {
    if names == [] then [] else Short(names[0]) + Shorts(names[1..])
  }

  /** The lengths the parser takes, whatever the mode. */
  predicate TeamsFit(p: Teams) {
    && |p.name| <= 64 && |p.displayName| <= 64 && |p.prefix| <= 16 && |p.suffix| <= 16
    && -128 <= p.friendlyFire < 128
    && |p.players| <= 1024 && forall i :: 0 <= i < |p.players| ==> |p.players[i]| <= 16
  }

  /** The team packet a client gets: creation, removal, update, new and leaving players. */
  function TeamBytes(p: Teams): seq<byte>
    requires TeamsFit(p)
  {
    var fire: byte := if p.friendlyFire < 0 then p.friendlyFire + 256 else p.friendlyFire;
    var info := Short(p.displayName) + Short(p.prefix) + Short(p.suffix) + [fire];
    var players := [|p.players| / 256, |p.players| % 256] + Shorts(p.players);
    Short(p.name) +
    match p.mode
    case 0 => [0] + info + players
    case 2 => [2] + info
    case 3 => [3] + players
    case 4 => [4] + players
    case mode => [mode]
  }

  /** What a packet of its mode carries of it. */
  function TeamCarried(p: Teams): Teams {
    match p.mode
    case 0 => p
    case 2 => p.(players := [])
    case 3 => p.(displayName := [], prefix := [], suffix := [], friendlyFire := 0)
    case 4 => p.(displayName := [], prefix := [], suffix := [], friendlyFire := 0)
    case _ => p.(displayName := [], prefix := [], suffix := [], friendlyFire := 0, players := [])
  }

  lemma {:induction false} ShortsAreNames(names: seq<seq<byte>>)
    requires forall i :: 0 <= i < |names| ==> |names[i]| < 0x80
    ensures WriteNames(names) == Shorts(names)
  {
    hide WriteString, Short;
    if names != [] {
      ShortIsString(names[0]);
      ShortsAreNames(names[1..]);
    }
  }

  lemma TeamsLayout(p: Teams)
    requires TeamsFit(p)
    ensures WriteTeams(p) == TeamBytes(p)
  {
    hide WriteString, WriteNames, Short, Shorts, BigEndian;
    Powers256();
    ShortIsString(p.name);
    ShortIsString(p.displayName);
    ShortIsString(p.prefix);
    ShortIsString(p.suffix);
    ShortsAreNames(p.players);
    OneByte(if p.friendlyFire < 0 then p.friendlyFire + 256 else p.friendlyFire);
    TwoBytes(|p.players|);
  }

  lemma TeamCarriedWrites(p: Teams)
    requires TeamsFit(p)
    ensures TeamsInBounds(TeamCarried(p)) && TeamsFit(TeamCarried(p))
    ensures WriteTeams(TeamCarried(p)) == WriteTeams(p)
  {
    Powers256();
    hide WriteString, WriteNames, BigEndian;
  }

  /** What stands behind the mode byte for each mode, and what the parser makes of it: exactly the
      fields of that mode, with the others empty. */
  lemma TeamsByMode(p: Teams, rest: seq<byte>)
    requires TeamsFit(p)
    ensures WriteTeams(p) == TeamBytes(p)
    ensures ReadTeams(TeamBytes(p) + rest) == Read(TeamCarried(p), true, rest)
  {
    hide ReadTeams, WriteTeams, TeamBytes, TeamCarried, TeamsInBounds;
    TeamsLayout(p);
    TeamCarriedWrites(p);
    TeamsRoundTrip(TeamCarried(p), rest);
  }

  /** A change of a field shows in the bytes exactly for the modes that carry it. */
  lemma TeamFieldsExactly(p: Teams, q: Teams)
    requires TeamsFit(p) && TeamsFit(q)
    ensures WriteTeams(p) == WriteTeams(q) <==>
      && p.name == q.name && p.mode == q.mode
      && (p.mode in {0, 2} ==> p.displayName == q.displayName && p.prefix == q.prefix && p.suffix == q.suffix
                               && p.friendlyFire == q.friendlyFire)
      && (p.mode in {0, 3, 4} ==> p.players == q.players)
  {
    hide ReadTeams, WriteTeams, TeamsInBounds, TeamBytes;
    TeamsByMode(p, []);
    TeamsByMode(q, []);
    TeamCarriedWrites(p);
    TeamCarriedWrites(q);
  }

  class TeamsPacketCB {
    var packet: Teams

    /** Parse fills a new packet: before it, all fields are empty. */
    method Parse(input: seq<byte>) returns (ok: bool, rest: seq<byte>)
      modifies this
      ensures var r := ReadTeams(input);
        ok == r.ok && rest == r.rest && (ok ==> packet == r.value)
    {
      hide ReadString, ReadNumber, ReadPlayers;
      var name := ReadString(input, MAX_TEAM_NAME);
      rest := name.rest;
      ok := rest != [];
      var mode: byte := if ok then rest[0] else 0;
      packet := Teams(name.value, mode, [], [], [], 0, []);
      if ok {
        rest := rest[1..];
      }
      if HasInfo(packet.mode) {
        var info := ReadInfo(packet, rest);
        packet, ok, rest := info.value, info.ok, info.rest;
      }
      if !ok {
        return;
      }
      if HasPlayers(packet.mode) {
        ok, rest := ParsePlayers(rest);
      }
    }

    method ParsePlayers(input: seq<byte>) returns (ok: bool, rest: seq<byte>)
      modifies this
      ensures var r := ReadPlayers(old(packet), input);
        ok == r.ok && rest == r.rest && (ok ==> packet == r.value)
    {
      hide ReadString, ReadNumber, ReadNames;
      var number := ReadNumber(input, 2);
      var count := Resign(number.value, 2);
      rest := number.rest;
      if !number.ok || count < 0 || count > MAX_PLAYERS {
        ok := false;
        return;
      }
      ghost var whole := ReadNames(count, rest);
      var players := [];
      ok := true;
      for i := 0 to count
        invariant ok && packet == old(packet)
        invariant var tail := ReadNames(count - i, rest);
          && whole.ok == tail.ok && whole.rest == tail.rest
          && (whole.ok ==> whole.value == players + tail.value)
      {
        ReadNamesStep(count - i, rest);
        var name := ReadString(rest, MAX_AFFIX);
        rest := name.rest;
        if !name.ok {
          ok := false;
          return;
        }
        players := players + [name.value];
      }
      ReadNamesStep(0, rest);
      assert players + [] == players;
      packet := packet.(players := players);
    }

    /** Fails exactly when the packet carries more players than the parser takes. */
    method Serialize() returns (out: seq<byte>, ok: bool)
      requires SignedRange(packet.friendlyFire, 1)
      ensures ok <==> Serializable(packet)
      ensures ok ==> out == WriteTeams(packet)
    {
      hide WriteString, WriteInfo;
      out := WriteString(packet.name) + [packet.mode];
      if HasInfo(packet.mode) {
        out := out + WriteInfo(packet);
      }
      if !HasPlayers(packet.mode) {
        ok := true;
        return;
      }
      if |packet.players| > MAX_PLAYERS {
        ok := false;
        return;
      }
      ok := true;
      var head := out + BigEndian(|packet.players|, 2);
      out := head;
      for i := 0 to |packet.players|
        invariant head + WriteNames(packet.players) == out + WriteNames(packet.players[i..])
      {
        assert packet.players[i..][1..] == packet.players[i + 1..];
        out := out + WriteString(packet.players[i]);
      }
      assert out + WriteNames([]) == out;
      ghost var info := if HasInfo(packet.mode) then WriteInfo(packet) else [];
      assert WriteTeams(packet) == WriteString(packet.name) + ([packet.mode] + (info +
        (BigEndian(|packet.players|, 2) + WriteNames(packet.players))));
    }

    static lemma ReadNamesStep(n: nat, s: seq<byte>)
      ensures var whole := ReadNames(n, s);
        if n == 0 then whole == Read([], true, s)
        else
          var head := ReadString(s, MAX_AFFIX);
          if !head.ok then !whole.ok && whole.rest == head.rest
          else
            var tail := ReadNames(n - 1, head.rest);
            whole == Read([head.value] + tail.value, tail.ok, tail.rest)
    {
      hide ReadString;
    }
  }
}
