/** The player list of a Minecraft client: what each player-list packet does to it. */
module PlayerTable {
  import opened Common
  import opened PlayPackets
  import opened Wire

  type Uuid = seq<int>
  type Table = map<Uuid, PlayerListItem>

  /** The effect of one item: additions overwrite, updates and removals of unknown UUIDs do
      nothing, and unknown actions are ignored. */
  function ApplyItem(t: Table, action: int, v: PlayerListItem): Table {
    if action == ADD_PLAYER then t[v.uuid := v]
    else if action == REMOVE_PLAYER then t - {v.uuid}
    else if v.uuid in t then t[v.uuid := Updated(action, t[v.uuid], v)]
    else t
  }

  function Updated(action: int, saved: PlayerListItem, v: PlayerListItem): PlayerListItem {
    if action == UPDATE_GAME_MODE then saved.(gameMode := v.gameMode)
    else if action == UPDATE_LATENCY then saved.(ping := v.ping)
    else if action == UPDATE_DISPLAY_NAME then saved.(displayName := v.displayName)
    else saved
  }

  function ApplyItems(t: Table, action: int, items: seq<PlayerListItem>): Table
    decreases |items|
  {
    if items == [] then t else ApplyItems(ApplyItem(t, action, items[0]), action, items[1..])
  }

  function ApplyList(t: Table, p: PlayerList): Table {
    ApplyItems(t, p.action, p.items)
  }

  lemma {:induction false} ApplyItemsAppend(t: Table, action: int, items: seq<PlayerListItem>, v: PlayerListItem)
    ensures ApplyItems(t, action, items + [v]) == ApplyItem(ApplyItems(t, action, items), action, v)
    decreases |items|
  {
    hide ApplyItem;
    if items == [] {
      assert (items + [v])[1..] == [];
    } else {
      assert (items + [v])[1..] == items[1..] + [v];
      ApplyItemsAppend(ApplyItem(t, action, items[0]), action, items[1..], v);
    }
  }

  // ---- one entry -------------------------------------------------------------------------

  function Lookup(t: Table, u: Uuid): Option<PlayerListItem> {
    if u in t then Some(t[u]) else None
  }

  /** The last item that names u, or -1. */
  function LastNaming(items: seq<PlayerListItem>, u: Uuid): (i: int)
    ensures -1 <= i < |items|
    ensures i >= 0 ==> items[i].uuid == u
    ensures forall j :: i < j < |items| ==> items[j].uuid != u
  {
    if items == [] then -1
    else if items[|items| - 1].uuid == u then |items| - 1
    else LastNaming(items[..|items| - 1], u)
  }

  function ItemEffect(entry: Option<PlayerListItem>, action: int, v: PlayerListItem): Option<PlayerListItem> {
    if action == ADD_PLAYER then Some(v)
    else if action == REMOVE_PLAYER || entry.None? then None
    else Some(Updated(action, entry.value, v))
  }

  /** What a packet makes of the entry of u: only the last item that names u matters. */
  function Effect(entry: Option<PlayerListItem>, action: int, items: seq<PlayerListItem>, u: Uuid)
    : Option<PlayerListItem>
  {
    var i := LastNaming(items, u);
    if i < 0 then entry else ItemEffect(entry, action, items[i])
  }

  lemma {:induction false} EffectIsEntry(t: Table, action: int, items: seq<PlayerListItem>, u: Uuid)
    ensures Lookup(ApplyItems(t, action, items), u) == Effect(Lookup(t, u), action, items, u)
    decreases |items|
  {
    if items != [] {
      var init, v := items[..|items| - 1], items[|items| - 1];
      assert items == init + [v];
      ApplyItemsAppend(t, action, init, v);
      EffectIsEntry(t, action, init, u);
    }
  }

  predicate IsLast(items: seq<PlayerListItem>, i: int)
    requires 0 <= i < |items|
  {
    forall j :: i < j < |items| ==> items[j].uuid != items[i].uuid
  }

  /** The table has what the item says. */
  predicate SaysNothingNew(t: Table, action: int, v: PlayerListItem) {
    if action == ADD_PLAYER then v.uuid in t && t[v.uuid] == v
    else if action == REMOVE_PLAYER then v.uuid !in t
    else if action == UPDATE_GAME_MODE then v.uuid in t ==> t[v.uuid].gameMode == v.gameMode
    else if action == UPDATE_LATENCY then v.uuid in t ==> t[v.uuid].ping == v.ping
    else if action == UPDATE_DISPLAY_NAME then v.uuid in t ==> t[v.uuid].displayName == v.displayName
    else true
  }

  /** A packet changes nothing exactly if no item that is the last of its UUID says anything
      new. */
  lemma ChangesNothingExactly(t: Table, action: int, items: seq<PlayerListItem>)
    ensures ApplyItems(t, action, items) == t <==>
      forall i :: 0 <= i < |items| && IsLast(items, i) ==> SaysNothingNew(t, action, items[i])
  {
    hide ApplyItems, LastNaming;
    var t' := ApplyItems(t, action, items);
    if t' == t {
      forall i | 0 <= i < |items| && IsLast(items, i) ensures SaysNothingNew(t, action, items[i]) {
        EffectIsEntry(t, action, items, items[i].uuid);
        assert LastNaming(items, items[i].uuid) == i;
      }
    }
    if forall i :: 0 <= i < |items| && IsLast(items, i) ==> SaysNothingNew(t, action, items[i]) {
      forall u ensures Lookup(t', u) == Lookup(t, u) {
        EffectIsEntry(t, action, items, u);
        var i := LastNaming(items, u);
        if i >= 0 {
          assert IsLast(items, i);
        }
      }
      SameLookups(t', t);
    }
  }

  lemma SameLookups(a: Table, b: Table)
    requires forall u :: Lookup(a, u) == Lookup(b, u)
    ensures a == b
  {
    forall u ensures u in a <==> u in b {
      assert Lookup(a, u) == Lookup(b, u);
    }
    forall u | u in a ensures a[u] == b[u] {
      assert Lookup(a, u) == Lookup(b, u);
    }
  }

  /** A client sees no more of the items than the action carries. */
  lemma {:induction false} CarriedApplies(t: Table, action: int32, items: seq<PlayerListItem>)
    ensures ApplyItems(t, action, CarriedAll(action, items)) == ApplyItems(t, action, items)
    decreases |items|
  {
    if items != [] {
      var v := items[0];
      assert CarriedAll(action, items)[1..] == CarriedAll(action, items[1..]);
      assert ApplyItem(t, action, Carried(action, v)) == ApplyItem(t, action, v);
      CarriedApplies(ApplyItem(t, action, v), action, items[1..]);
    }
  }

  /** Every entry stands under its own UUID. */
  predicate Keyed(t: Table) {
    forall u <- t :: t[u].uuid == u
  }

  lemma {:induction false} ApplyKeepsKeyed(t: Table, action: int, items: seq<PlayerListItem>)
    requires Keyed(t)
    ensures Keyed(ApplyItems(t, action, items))
    decreases |items|
  {
    if items != [] {
      ApplyKeepsKeyed(ApplyItem(t, action, items[0]), action, items[1..]);
    }
  }

  // ---- entries of others -----------------------------------------------------------------

  /** The part of a table whose UUIDs are not reserved. */
  function Outside(t: Table, reserved: Uuid -> bool): Table {
    map u | u in t && !reserved(u) :: t[u]
  }

  predicate AllReserved(items: seq<PlayerListItem>, reserved: Uuid -> bool) {
    forall i :: 0 <= i < |items| ==> reserved(items[i].uuid)
  }

  predicate NoneReserved(items: seq<PlayerListItem>, reserved: Uuid -> bool) {
    forall i :: 0 <= i < |items| ==> !reserved(items[i].uuid)
  }

  lemma ApplyItemOutside(t: Table, action: int, v: PlayerListItem, reserved: Uuid -> bool)
    ensures Outside(ApplyItem(t, action, v), reserved) ==
      if reserved(v.uuid) then Outside(t, reserved) else ApplyItem(Outside(t, reserved), action, v)
  {
    var outside := Outside(t, reserved);
    assert v.uuid in t && !reserved(v.uuid) ==> outside[v.uuid] == t[v.uuid];
  }

  lemma {:induction false} ApplyReserved(t: Table, action: int, items: seq<PlayerListItem>, reserved: Uuid -> bool)
    requires AllReserved(items, reserved)
    ensures Outside(ApplyItems(t, action, items), reserved) == Outside(t, reserved)
    decreases |items|
  {
    hide ApplyItem, Outside;
    if items != [] {
      ApplyItemOutside(t, action, items[0], reserved);
      ApplyReserved(ApplyItem(t, action, items[0]), action, items[1..], reserved);
    }
  }

  lemma {:induction false} ApplyUnreserved(t: Table, action: int, items: seq<PlayerListItem>, reserved: Uuid -> bool)
    requires NoneReserved(items, reserved)
    ensures Outside(ApplyItems(t, action, items), reserved) == ApplyItems(Outside(t, reserved), action, items)
    decreases |items|
  {
    hide ApplyItem, Outside;
    if items != [] {
      ApplyItemOutside(t, action, items[0], reserved);
      ApplyUnreserved(ApplyItem(t, action, items[0]), action, items[1..], reserved);
    }
  }

  // ---- removing everything ---------------------------------------------------------------

  /** The items in `order` are the values of t, each once, in whatever order a range loop
      over the map visits them. */
  predicate IsEnumeration(t: Table, order: seq<PlayerListItem>) {
    && (forall i :: 0 <= i < |order| ==> order[i].uuid in t && t[order[i].uuid] == order[i])
    && (forall i, j :: 0 <= i < j < |order| ==> order[i].uuid != order[j].uuid)
    && (forall u <- t :: exists i :: 0 <= i < |order| && order[i].uuid == u)
  }

  lemma {:induction false} RemoveItems(t: Table, items: seq<PlayerListItem>)
    ensures forall u :: u in ApplyItems(t, REMOVE_PLAYER, items) <==>
              u in t && forall i :: 0 <= i < |items| ==> items[i].uuid != u
    decreases |items|
  {
    if items != [] {
      var rest := items[1..];
      var t' := ApplyItem(t, REMOVE_PLAYER, items[0]);
      RemoveItems(t', rest);
      forall u
        ensures u in ApplyItems(t, REMOVE_PLAYER, items) <==>
          u in t && forall i :: 0 <= i < |items| ==> items[i].uuid != u
      {
        if u in t && u != items[0].uuid && forall i :: 0 <= i < |rest| ==> rest[i].uuid != u {
          forall i | 0 <= i < |items| ensures items[i].uuid != u {
            if i > 0 { assert items[i] == rest[i - 1]; }
          }
        }
        if forall i :: 0 <= i < |items| ==> items[i].uuid != u {
          assert forall i :: 0 <= i < |rest| ==> rest[i] == items[i + 1];
        }
      }
    }
  }

  /** Removing the values of one table empties the unreserved part of another that agrees
      with it there, whatever the order. */
  lemma RemoveAllEmpties(client: Table, mirror: Table, order: seq<PlayerListItem>, reserved: Uuid -> bool)
    requires Outside(client, reserved) == mirror && IsEnumeration(mirror, order)
    ensures Outside(ApplyItems(client, REMOVE_PLAYER, order), reserved) == map[]
  {
    hide ApplyItems;
    RemoveItems(client, order);
    assert forall u :: u in client && !reserved(u) ==> u in mirror;
  }
}
