/** playermgr.go: the map of online players and its counter, which Register and Unregister
    change in two separate atomic operations. */
module Players {

  /** How far a connection has come: before LoadOrStore, refused by it, stored, counted,
      deleted again, uncounted again. */
  datatype Pc = Connecting | Refused | Stored | Registered | Deleted | Gone

  /** Any number of connections; connection h registers under lower(nicknames[h]). */
  datatype Config = Config(nicknames: seq<string>, lower: string -> string) {
    function Key(h: nat): string
      requires h < |nicknames|
    {
      lower(nicknames[h])
    }
  }

  datatype World = World(pcs: seq<Pc>, m: map<string, nat>, count: int)

  /** One atomic operation of one connection. */
  datatype Step =
    | LoadOrStore(h: nat)
    | Increment(h: nat)
    | Delete(h: nat)
    | Decrement(h: nat)

  function Next(cfg: Config, w: World, step: Step): World
    requires |w.pcs| == |cfg.nicknames|
  {
    if step.h >= |w.pcs| then w
    else
      var h, pc, key := step.h, w.pcs[step.h], cfg.Key(step.h);
      match (step, pc)
      case (LoadOrStore(_), Connecting) =>
        if key in w.m then w.(pcs := w.pcs[h := Refused])
        else w.(pcs := w.pcs[h := Stored], m := w.m[key := h])
      case (Increment(_), Stored) => w.(pcs := w.pcs[h := Registered], count := w.count + 1)
      case (Delete(_), Registered) => w.(pcs := w.pcs[h := Deleted], m := w.m - {key})
      case (Decrement(_), Deleted) => w.(pcs := w.pcs[h := Gone], count := w.count - 1)
      case _ => w
  }

  function Run(cfg: Config, w: World, steps: seq<Step>): (r: World)
    requires |w.pcs| == |cfg.nicknames|
    ensures |r.pcs| == |cfg.nicknames|
  {
    if steps == [] then w else Next(cfg, Run(cfg, w, steps[..|steps| - 1]), steps[|steps| - 1])
  }

  function Number(pcs: seq<Pc>, pc: Pc): nat {
    if pcs == [] then 0 else (if pcs[0] == pc then 1 else 0) + Number(pcs[1..], pc)
  }

  lemma {:induction false} NumberUpdate(pcs: seq<Pc>, h: nat, x: Pc, pc: Pc)
    requires h < |pcs|
    ensures Number(pcs[h := x], pc) ==
      Number(pcs, pc) - (if pcs[h] == pc then 1 else 0) + if x == pc then 1 else 0
    decreases |pcs|
  {
    if h == 0 {
      assert pcs[h := x][1..] == pcs[1..];
    } else {
      assert pcs[h := x][1..] == pcs[1..][h - 1 := x];
      NumberUpdate(pcs[1..], h - 1, x, pc);
    }
  }

  /** The connection owns the entry under its key. */
  predicate Owns(pc: Pc) {
    pc == Stored || pc == Registered
  }

  /** The map and the connections agree about who owns what. */
  ghost predicate OwnersAgree(cfg: Config, w: World)
    requires |w.pcs| == |cfg.nicknames|
  {
    && (forall key :: key in w.m ==> w.m[key] < |w.pcs| && Owns(w.pcs[w.m[key]]) && cfg.Key(w.m[key]) == key)
    && (forall h :: 0 <= h < |w.pcs| && Owns(w.pcs[h]) ==> cfg.Key(h) in w.m && w.m[cfg.Key(h)] == h)
  }

  predicate CountsAgree(w: World) {
    && |w.m| == Number(w.pcs, Stored) + Number(w.pcs, Registered)
    && w.count == Number(w.pcs, Registered) + Number(w.pcs, Deleted)
  }

  ghost predicate Consistent(cfg: Config, w: World) {
    |w.pcs| == |cfg.nicknames| && OwnersAgree(cfg, w) && CountsAgree(w)
  }

  lemma StepKeepsOwners(cfg: Config, w: World, step: Step)
    requires |w.pcs| == |cfg.nicknames| && OwnersAgree(cfg, w)
    ensures OwnersAgree(cfg, Next(cfg, w, step))
  {
  }

  lemma StepKeepsCounts(cfg: Config, w: World, step: Step)
    requires Consistent(cfg, w)
    ensures CountsAgree(Next(cfg, w, step))
  {
    hide Number, OwnersAgree;
    if step.h < |w.pcs| {
      var w' := Next(cfg, w, step);
      var x := w'.pcs[step.h];
      assert w'.pcs == w.pcs[step.h := x];
      NumberUpdate(w.pcs, step.h, x, Stored);
      NumberUpdate(w.pcs, step.h, x, Registered);
      NumberUpdate(w.pcs, step.h, x, Deleted);
      if w.pcs[step.h] == Registered {
        OwnerStored(cfg, w, step.h);
        RemovedOne(w.m, cfg.Key(step.h));
      }
    }
  }

  lemma OwnerStored(cfg: Config, w: World, h: nat)
    requires |w.pcs| == |cfg.nicknames| && OwnersAgree(cfg, w)
    requires h < |w.pcs| && Owns(w.pcs[h])
    ensures cfg.Key(h) in w.m && w.m[cfg.Key(h)] == h
  {
  }

  lemma RemovedOne(m: map<string, nat>, key: string)
    requires key in m
    ensures |m - {key}| == |m| - 1
  {
    assert m == (m - {key})[key := m[key]];
  }

  lemma StepKeepsConsistent(cfg: Config, w: World, step: Step)
    requires Consistent(cfg, w)
    ensures Consistent(cfg, Next(cfg, w, step))
  {
    StepKeepsOwners(cfg, w, step);
    StepKeepsCounts(cfg, w, step);
    hide OwnersAgree, CountsAgree;
  }

  lemma {:induction false} NobodyCounted(n: nat, pcs: seq<Pc>, pc: Pc)
    requires |pcs| == n && pc != Connecting && forall h :: 0 <= h < n ==> pcs[h] == Connecting
    ensures Number(pcs, pc) == 0
  {
    if n > 0 {
      NobodyCounted(n - 1, pcs[1..], pc);
    }
  }

  /** For any number of connections and any interleaving of their operations: the map holds
      one entry more than counted for each connection stored but not yet counted, and one less
      for each deleted but not yet uncounted; the count is never negative; every entry belongs
      to the one connection that stored it. */
  lemma {:induction false} RunIsConsistent(cfg: Config, w: World, steps: seq<Step>)
    requires |w.pcs| == |cfg.nicknames| && w.m == map[] && w.count == 0
    requires forall h :: 0 <= h < |w.pcs| ==> w.pcs[h] == Connecting
    ensures var r := Run(cfg, w, steps);
      && Consistent(cfg, r)
      && |r.m| == r.count + Number(r.pcs, Stored) - Number(r.pcs, Deleted)
      && r.count >= 0
    decreases |steps|
  {
    if steps == [] {
      NobodyCounted(|w.pcs|, w.pcs, Stored);
      NobodyCounted(|w.pcs|, w.pcs, Registered);
      NobodyCounted(|w.pcs|, w.pcs, Deleted);
    } else {
      hide Next, Number;
      RunIsConsistent(cfg, w, steps[..|steps| - 1]);
      StepKeepsConsistent(cfg, Run(cfg, w, steps[..|steps| - 1]), steps[|steps| - 1]);
    }
  }

  /** A lower-cased nickname has at most one owner, and what Delete removes is the entry of
      the connection that deletes. */
  lemma OwnersAreUnique(cfg: Config, w: World, h: nat, g: nat)
    requires Consistent(cfg, w) && h < |w.pcs| && g < |w.pcs|
    ensures Owns(w.pcs[h]) && Owns(w.pcs[g]) && cfg.lower(cfg.nicknames[h]) == cfg.lower(cfg.nicknames[g]) ==> h == g
    ensures w.pcs[h] == Registered ==>
      var r, key := Next(cfg, w, Delete(h)), cfg.lower(cfg.nicknames[h]);
      && key in w.m && w.m[key] == h
      && r.m.Keys == w.m.Keys - {key}
      && (g != h && Owns(w.pcs[g]) ==> cfg.Key(g) in r.m && r.m[cfg.Key(g)] == g)
    // a nickname is refused exactly if one with the same lower-cased form is held
    ensures w.pcs[h] == Connecting ==>
      (Next(cfg, w, LoadOrStore(h)).pcs[h] == Refused <==>
         exists o :: 0 <= o < |w.pcs| && Owns(w.pcs[o]) && cfg.lower(cfg.nicknames[o]) == cfg.lower(cfg.nicknames[h]))
  {
    assert Owns(w.pcs[h]) ==> w.m[cfg.Key(h)] == h;
    assert Owns(w.pcs[g]) ==> w.m[cfg.Key(g)] == g;
  }

  // ---- the object, when nobody interferes ------------------------------------------------

  class PlayerManager {
    var m: map<string, nat>
    var count: int

    constructor ()
      ensures m == map[] && count == 0
    {
      m, count := map[], 0;
    }

    /** Register: the two operations in a row. */
    method Register(cfg: Config, handler: nat, ghost w: World) returns (ok: bool)
      requires |w.pcs| == |cfg.nicknames| && handler < |w.pcs| && w.pcs[handler] == Connecting
      requires w.m == m && w.count == count
      modifies this
      ensures var stored := Next(cfg, w, LoadOrStore(handler));
        var r := if ok then Next(cfg, stored, Increment(handler)) else stored;
        && r.m == m && r.count == count
        && r.pcs[handler] == (if ok then Registered else Refused)
      ensures var key := cfg.lower(cfg.nicknames[handler]);
        && (ok <==> key !in old(m))
        && m == (if ok then old(m)[key := handler] else old(m))
        && count == (if ok then old(count) + 1 else old(count))
    {
      var key := cfg.Key(handler);
      if key in m {
        return false;
      }
      m := m[key := handler];
      count := count + 1;
      return true;
    }

    /** Unregister, which handleProxy defers only after a successful Register. */
    method Unregister(cfg: Config, handler: nat, ghost w: World)
      requires |w.pcs| == |cfg.nicknames| && handler < |w.pcs| && w.pcs[handler] == Registered
      requires w.m == m && w.count == count
      modifies this
      ensures var r := Next(cfg, Next(cfg, w, Delete(handler)), Decrement(handler));
        r.m == m && r.count == count && r.pcs[handler] == Gone
      ensures m == old(m) - {cfg.lower(cfg.nicknames[handler])} && count == old(count) - 1
    {
      var key := cfg.Key(handler);
      m := m - {key};
      count := count - 1;
    }

    method Len() returns (n: int)
      ensures n == count
    {
      n := count;
    }
  }
}
