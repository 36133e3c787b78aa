/** filters/permissions: permission sets, the search for the most specific key, and the
    folding of groups into the set of a user. */
module Permissions {
  import opened Common

  type Perms = map<string, bool>

  // ---- ancestors -------------------------------------------------------------------------

  /** q is perm itself or perm cut off before one of its dots. */
  predicate IsAncestor(q: string, perm: string) {
    q == perm || (|q| < |perm| && perm[..|q|] == q && perm[|q|] == '.')
  }

  /** The longest ancestor-or-self of perm that is present. */
  predicate MostSpecific(ps: Perms, perm: string, q: string) {
    && q in ps && IsAncestor(q, perm)
    && forall r :: r in ps && IsAncestor(r, perm) ==> |r| <= |q|
  }

  predicate NoAncestor(ps: Perms, perm: string) {
    forall r :: r in ps ==> !IsAncestor(r, perm)
  }

  /** The answer for perm: the value at the most specific key present, else no. */
  ghost predicate Answer(ps: Perms, perm: string, v: bool) {
    (NoAncestor(ps, perm) && !v) || exists q :: MostSpecific(ps, perm, q) && v == ps[q]
  }

  lemma AncestorsOfOneLength(q: string, r: string, perm: string)
    requires IsAncestor(q, perm) && IsAncestor(r, perm) && |q| == |r|
    ensures q == r
  {
  }

  lemma AnswerUnique(ps: Perms, perm: string, v: bool, u: bool)
    requires Answer(ps, perm, v) && Answer(ps, perm, u)
    ensures v == u
  {
    if v != u && !NoAncestor(ps, perm) {
      var q :| MostSpecific(ps, perm, q) && v == ps[q];
      var r :| MostSpecific(ps, perm, r) && u == ps[r];
      AncestorsOfOneLength(q, r, perm);
    }
  }

  /** strings.LastIndex(s, ".") */
  function LastDot(s: string): (i: int)
    ensures -1 <= i < |s|
    ensures i >= 0 ==> s[i] == '.'
    ensures forall k :: i < k < |s| ==> s[k] != '.'
  {
    if s == "" then -1
    else if s[|s| - 1] == '.' then |s| - 1
    else LastDot(s[..|s| - 1])
  }

  /** Cutting at the last dot loses no ancestor but the string itself. */
  lemma CutKeepsAncestors(s: string, q: string)
    requires LastDot(s) >= 0 && q != s
    ensures IsAncestor(q, s) <==> IsAncestor(q, s[..LastDot(s)])
  {
    var i := LastDot(s);
    if IsAncestor(q, s) && |q| < i {
      assert s[..i][..|q|] == s[..|q|];
    }
    if IsAncestor(q, s[..i]) && |q| < i {
      assert s[..i][..|q|] == s[..|q|];
    }
  }

  class PermSet {
    var ps: Perms

    constructor ()
      ensures ps == map[]
    {
      ps := map[];
    }

    /** Shortens the name at its last dot until it is found. */
    method HasPermission(perm: string) returns (v: bool)
      ensures Answer(ps, perm, v)
    {
      var p := perm;
      while true
        invariant IsAncestor(p, perm)
        invariant forall q :: q in ps && IsAncestor(q, perm) ==> IsAncestor(q, p)
        decreases |p|
      {
        if p in ps {
          assert MostSpecific(ps, perm, p);
          return ps[p];
        }
        var li := LastDot(p);
        if li < 0 {
          return false;
        }
        forall q | q in ps && IsAncestor(q, perm) ensures IsAncestor(q, p[..li]) {
          CutKeepsAncestors(p, q);
        }
        AncestorOfAncestor(p[..li], p, perm);
        p := p[..li];
      }
    }

    static lemma AncestorOfAncestor(q: string, p: string, perm: string)
      requires IsAncestor(q, p) && IsAncestor(p, perm)
      ensures IsAncestor(q, perm)
    {
      if q != p && p != perm {
        assert perm[..|p|][..|q|] == perm[..|q|];
      }
    }

    method SetPermission(perm: string, value: bool)
      modifies this
      ensures ps == old(ps)[perm := value]
    {
      ps := ps[perm := value];
    }

    /** Apply: copies perms, in any order, after checking each against the root and, without
        override, against what is there. On success everything is copied; an error leaves a
        part copied, and none of what was refused. */
    method Apply(perms: Perms, root: string, override: bool) returns (ok: bool)
      modifies this
      ensures ok <==> forall k :: k in perms ==>
        && (root == "" || k == root || root + "." <= k)
        && (override || k !in old(ps) || old(ps)[k] == perms[k])
      ensures ok ==> ps == old(ps) + perms
      ensures !ok ==> exists part ::
        && part <= perms.Keys
        && (forall k :: k in part ==> Accepts(old(ps), perms, root, override, k))
        && ps == old(ps) + Restricted(perms, part)
    {
      hide Restricted, Accepts;
      var left := perms.Keys;
      ghost var before := ps;
      RestrictedLaws(before, perms);
      AcceptsExactly(before, perms, root, override);
      while left != {}
        invariant left <= perms.Keys
        invariant ps == before + Restricted(perms, perms.Keys - left)
        invariant forall k :: k in perms.Keys - left ==> Accepts(before, perms, root, override, k)
        decreases |left|
      {
        var k :| k in left;
        var v := perms[k];
        ghost var part := perms.Keys - left;
        ApplyStep(before, perms, part, k, root, override);
        if !(root + "." <= k) && k != root && root != "" {
          return false;
        }
        if !override && k in ps && ps[k] != v {
          return false;
        }
        ps := ps[k := v];
        assert perms.Keys - (left - {k}) == part + {k};
        left := left - {k};
      }
      assert perms.Keys - {} == perms.Keys;
      ok := true;
    }

    /** A key that was not copied yet is checked against what was there at first. */
    static lemma ApplyStep(before: Perms, perms: Perms, part: set<string>, k: string, root: string, override: bool)
      requires k in perms && k !in part
      ensures var ps := before + Restricted(perms, part);
        && ps[k := perms[k]] == before + Restricted(perms, part + {k})
        && (Accepts(before, perms, root, override, k) <==>
              && (root + "." <= k || k == root || root == "")
              && (override || k !in ps || ps[k] == perms[k]))
    {
    }
  }

  function Restricted(perms: Perms, keys: set<string>): Perms {
    map k | k in perms && k in keys :: perms[k]
  }

  lemma RestrictedLaws(before: Perms, perms: Perms)
    ensures Restricted(perms, perms.Keys) == perms
    ensures before + Restricted(perms, perms.Keys - perms.Keys) == before
  {
  }

  lemma AcceptsExactly(ps: Perms, perms: Perms, root: string, override: bool)
    ensures (forall k :: k in perms ==> Accepts(ps, perms, root, override, k)) <==>
      forall k :: k in perms ==>
        (root == "" || k == root || root + "." <= k) && (override || k !in ps || ps[k] == perms[k])
  {
  }

  /** Whether Apply takes the key: within the root, and not in conflict. */
  predicate Accepts(ps: Perms, perms: Perms, root: string, override: bool, k: string)
    requires k in perms
  {
    && (root + "." <= k || k == root || root == "")
    && (override || k !in ps || ps[k] == perms[k])
  }

  // ---- groups ----------------------------------------------------------------------------

  type Groups = map<string, Perms>

  /** The set of a user: the groups one over another, later ones on top; none if a group is
      missing. */
  function Fold(groups: Groups, names: seq<string>): Option<Perms> {
    if names == [] then Some(map[])
    else
      var below := Fold(groups, names[..|names| - 1]);
      var name := names[|names| - 1];
      if below.None? || name !in groups then None else Some(below.value + groups[name])
  }

  predicate AllKnown(groups: Groups, names: seq<string>) {
    forall i :: 0 <= i < |names| ==> names[i] in groups
  }

  /** Group i has the key and no later group does. */
  predicate LatestWith(groups: Groups, names: seq<string>, k: string, i: int)
    requires AllKnown(groups, names)
  {
    && 0 <= i < |names| && k in groups[names[i]]
    && forall j :: i < j < |names| ==> k !in groups[names[j]]
  }

  /** A key is in the folded set exactly if a group has it, with the value of the latest. */
  lemma {:induction false} LatestGroupWins(groups: Groups, names: seq<string>, k: string)
    ensures Fold(groups, names).Some? <==> AllKnown(groups, names)
    ensures AllKnown(groups, names) ==>
      (k in Fold(groups, names).value <==> exists i :: LatestWith(groups, names, k, i))
    ensures AllKnown(groups, names) ==>
      forall i :: LatestWith(groups, names, k, i) ==> Fold(groups, names).value[k] == groups[names[i]][k]
    decreases |names|
  {
    if names != [] {
      var n := |names| - 1;
      var below := names[..n];
      LatestGroupWins(groups, below, k);
      assert AllKnown(groups, names) <==> AllKnown(groups, below) && names[n] in groups;
      if AllKnown(groups, names) {
        forall i ensures LatestWith(groups, names, k, i) <==>
          (i == n && k in groups[names[n]]) || (k !in groups[names[n]] && LatestWith(groups, below, k, i))
        {
          if LatestWith(groups, names, k, i) && i < n {
            assert k !in groups[names[n]];
            assert forall j :: i < j < n ==> below[j] == names[j];
          }
        }
        if k in groups[names[n]] {
          assert LatestWith(groups, names, k, n);
        } else if k in Fold(groups, below).value {
          var i :| LatestWith(groups, below, k, i);
          assert LatestWith(groups, names, k, i);
        }
      }
    }
  }

  /** The default group under the folded groups of a user is one more group in front, so what
      holds of folded groups holds of the set GetPlayerPermissions makes. */
  lemma {:induction false} DefaultIsFirstGroup(groups: Groups, names: seq<string>)
    requires "default" in groups && AllKnown(groups, names)
    ensures Fold(groups, names).Some?
    ensures Fold(groups, ["default"] + names) == Some(groups["default"] + Fold(groups, names).value)
    decreases |names|
  {
    var all := ["default"] + names;
    if names == [] {
      assert all[..0] == [] && map[] + groups["default"] == groups["default"] + map[];
    } else {
      var below, last := names[..|names| - 1], groups[names[|names| - 1]];
      assert all[..|all| - 1] == ["default"] + below;
      DefaultIsFirstGroup(groups, below);
      assert groups["default"] + (Fold(groups, below).value + last)
             == groups["default"] + Fold(groups, below).value + last;
    }
  }

  /** No group has a more specific key than q, and group i is the latest to have q. */
  ghost predicate Decides(groups: Groups, names: seq<string>, perm: string, q: string, i: int)
    requires AllKnown(groups, names)
  {
    && LatestWith(groups, names, q, i) && IsAncestor(q, perm)
    && forall j, r :: 0 <= j < |names| && r in groups[names[j]] && IsAncestor(r, perm) ==> |r| <= |q|
  }

  predicate NoneAsked(groups: Groups, names: seq<string>, perm: string)
    requires AllKnown(groups, names)
  {
    forall i, q :: 0 <= i < |names| && q in groups[names[i]] ==> !IsAncestor(q, perm)
  }

  /** v is what the groups say of perm: the most specific key any of them has decides, and among
      the groups that have it the latest; if none has any, no. */
  ghost predicate DecidedBy(groups: Groups, names: seq<string>, perm: string, v: bool) {
    && AllKnown(groups, names)
    && ((NoneAsked(groups, names, perm) && !v)
        || exists q, i :: Decides(groups, names, perm, q, i) && v == groups[names[i]][q])
  }

  lemma AnswerIsDecided(groups: Groups, names: seq<string>, perm: string, v: bool)
    requires AllKnown(groups, names) && Fold(groups, names).Some?
    requires Answer(Fold(groups, names).value, perm, v)
    ensures DecidedBy(groups, names, perm, v)
  {
    var ps := Fold(groups, names).value;
    if NoAncestor(ps, perm) {
      forall i, q | 0 <= i < |names| && q in groups[names[i]] ensures !IsAncestor(q, perm) {
        LatestGroupHasKey(groups, names, q, i);
      }
    } else {
      var q :| MostSpecific(ps, perm, q) && v == ps[q];
      LatestGroupWins(groups, names, q);
      var i :| LatestWith(groups, names, q, i);
      forall j, r | 0 <= j < |names| && r in groups[names[j]] && IsAncestor(r, perm) ensures |r| <= |q| {
        LatestGroupHasKey(groups, names, r, j);
      }
      assert Decides(groups, names, perm, q, i);
    }
  }

  /** A key of any group is in the folded set. */
  lemma {:induction false} LatestGroupHasKey(groups: Groups, names: seq<string>, k: string, i: nat)
    requires AllKnown(groups, names) && i < |names| && k in groups[names[i]]
    ensures Fold(groups, names).Some? && k in Fold(groups, names).value
    decreases |names|
  {
    LatestGroupWins(groups, names, k);
    if i < |names| - 1 {
      LatestGroupHasKey(groups, names[..|names| - 1], k, i);
    }
  }

  /** The groups leave one answer: at most one key and one group decide. */
  lemma DecisionUnique(groups: Groups, names: seq<string>, perm: string, v: bool, u: bool)
    requires DecidedBy(groups, names, perm, v) && DecidedBy(groups, names, perm, u)
    ensures v == u
  {
    forall q, i, r, j | Decides(groups, names, perm, q, i) && Decides(groups, names, perm, r, j)
      ensures q == r && i == j
    {
      AncestorsOfOneLength(q, r, perm);
    }
  }

  /** Setting one key changes the answer only for names at or below it that have no more
      specific entry. */
  lemma OneKeyIsLocal(ps: Perms, k: string, value: bool, perm: string, v: bool, u: bool)
    requires Answer(ps, perm, v) && Answer(ps[k := value], perm, u)
    ensures v != u ==> IsAncestor(k, perm) && forall q :: q in ps && IsAncestor(q, perm) ==> |q| <= |k|
    ensures IsAncestor(k, perm) && (forall q :: q in ps && IsAncestor(q, perm) ==> |q| <= |k|) ==> u == value
  {
    var ps' := ps[k := value];
    if IsAncestor(k, perm) && forall q :: q in ps && IsAncestor(q, perm) ==> |q| <= |k| {
      assert MostSpecific(ps', perm, k);
      AnswerUnique(ps', perm, u, value);
    } else {
      AnswerElsewhere(ps, k, value, perm, v);
      AnswerUnique(ps', perm, u, v);
    }
  }

  lemma AnswerElsewhere(ps: Perms, k: string, value: bool, perm: string, v: bool)
    requires Answer(ps, perm, v)
    requires !(IsAncestor(k, perm) && forall q :: q in ps && IsAncestor(q, perm) ==> |q| <= |k|)
    ensures Answer(ps[k := value], perm, v)
  {
    var ps' := ps[k := value];
    if NoAncestor(ps, perm) {
      assert NoAncestor(ps', perm);
    } else {
      var q :| MostSpecific(ps, perm, q) && v == ps[q];
      assert MostSpecific(ps', perm, q);
      assert k != q;
    }
  }

  /** The folding loop of LoadPermissions for one user. */
  method FoldGroups(groups: Groups, names: seq<string>) returns (r: Option<Perms>)
    ensures r == Fold(groups, names)
  {
    var user := new PermSet();
    for i := 0 to |names|
      invariant fresh(user)
      invariant Fold(groups, names[..i]) == Some(user.ps)
      invariant AllKnown(groups, names[..i])
    {
      assert names[..i + 1][..i] == names[..i];
      if names[i] !in groups {
        LatestGroupWins(groups, names, "");
        return None;
      }
      var ok := user.Apply(groups[names[i]], "", true);
    }
    assert names[..|names|] == names;
    return Some(user.ps);
  }

  // ---- all users -------------------------------------------------------------------------

  /** perm_users.yml: the group list of every nickname, visited in some order. */
  function Load(groups: Groups, lists: map<string, seq<string>>, order: seq<string>, lower: string -> string)
    : Option<map<string, Perms>>
    requires forall n <- order :: n in lists
  {
    if order == [] then Some(map[])
    else
      var n := order[|order| - 1];
      var users := Load(groups, lists, order[..|order| - 1], lower);
      var perms := Fold(groups, lists[n]);
      if users.None? || perms.None? then None else Some(users.value[lower(n) := perms.value])
  }

  ghost predicate Visits(lists: map<string, seq<string>>, order: seq<string>) {
    && (forall n :: n in order <==> n in lists)
    && (forall i, j :: 0 <= i < j < |order| ==> order[i] != order[j])
  }

  /** Nicknames that differ only in case have the same permissions. */
  ghost predicate NoClash(groups: Groups, lists: map<string, seq<string>>, lower: string -> string) {
    forall a, b :: a in lists && b in lists && lower(a) == lower(b) ==> Fold(groups, lists[a]) == Fold(groups, lists[b])
  }

  predicate AllFold(groups: Groups, lists: map<string, seq<string>>) {
    forall n :: n in lists ==> Fold(groups, lists[n]).Some?
  }

  lemma {:induction false} LoadFailsExactly(
    groups: Groups, lists: map<string, seq<string>>, order: seq<string>, lower: string -> string)
    requires forall n <- order :: n in lists
    ensures Load(groups, lists, order, lower).Some? <==>
      forall i :: 0 <= i < |order| ==> Fold(groups, lists[order[i]]).Some?
    decreases |order|
  {
    hide Fold;
    if order != [] {
      LoadFailsExactly(groups, lists, order[..|order| - 1], lower);
    }
  }

  /** Without a clash a user's set does not depend on the order. */
  lemma {:induction false} LoadedValue(
    groups: Groups, lists: map<string, seq<string>>, order: seq<string>, lower: string -> string, key: string)
    requires (forall n <- order :: n in lists) && NoClash(groups, lists, lower)
    requires Load(groups, lists, order, lower).Some?
    ensures key in Load(groups, lists, order, lower).value <==> exists n :: n in order && lower(n) == key
    ensures forall n :: n in order && lower(n) == key ==>
      Some(Load(groups, lists, order, lower).value[key]) == Fold(groups, lists[n])
    decreases |order|
  {
    hide Fold;
    if order != [] {
      var init, last := order[..|order| - 1], order[|order| - 1];
      assert forall n :: n in order <==> n in init || n == last;
      LoadedValue(groups, lists, init, lower, key);
    }
  }

  ghost predicate OrderIrrelevant(groups: Groups, lists: map<string, seq<string>>, lower: string -> string) {
    forall o1, o2 :: Visits(lists, o1) && Visits(lists, o2) ==>
      Load(groups, lists, o1, lower) == Load(groups, lists, o2, lower)
  }

  lemma SameLoad(
    groups: Groups, lists: map<string, seq<string>>, o1: seq<string>, o2: seq<string>, lower: string -> string)
    requires Visits(lists, o1) && Visits(lists, o2)
    requires AllFold(groups, lists) ==> NoClash(groups, lists, lower)
    ensures Load(groups, lists, o1, lower) == Load(groups, lists, o2, lower)
  {
    hide Fold, Load;
    LoadFailsExactly(groups, lists, o1, lower);
    LoadFailsExactly(groups, lists, o2, lower);
    var r1, r2 := Load(groups, lists, o1, lower), Load(groups, lists, o2, lower);
    if AllFold(groups, lists) {
      forall key
        ensures (key in r1.value <==> key in r2.value) && (key in r1.value ==> r1.value[key] == r2.value[key])
      {
        LoadedValue(groups, lists, o1, lower, key);
        LoadedValue(groups, lists, o2, lower, key);
      }
      assert r1.value == r2.value;
    } else {
      var n :| n in lists && Fold(groups, lists[n]).None?;
      assert n in o1 && n in o2;
    }
  }

  lemma {:induction false} VisitingOrder(names: set<string>) returns (order: seq<string>)
    ensures forall n :: n in order <==> n in names
    ensures forall i, j :: 0 <= i < j < |order| ==> order[i] != order[j]
    decreases |names|
  {
    if names == {} {
      order := [];
    } else {
      var n :| n in names;
      var rest := VisitingOrder(names - {n});
      order := rest + [n];
    }
  }

  /** The last nickname visited of those that share a lower-cased form wins. */
  lemma LastVisitedWins(
    groups: Groups, lists: map<string, seq<string>>, rest: seq<string>, a: string, b: string, lower: string -> string)
    requires (forall n <- rest :: n in lists) && a in lists && b in lists && AllFold(groups, lists)
    ensures forall n <- rest + [a, b] :: n in lists
    ensures var r := Load(groups, lists, rest + [a, b], lower);
      r.Some? && lower(b) in r.value && Some(r.value[lower(b)]) == Fold(groups, lists[b])
  {
    var order := rest + [a, b];
    LoadFailsExactly(groups, lists, order, lower);
    assert order[..|order| - 1] == rest + [a];
  }

  /** What LoadPermissions installs is independent of the map iteration order exactly if no
      two nicknames that differ only in case have different permissions, or nothing is
      installed because a group is missing. */
  lemma LoadOrderExactly(groups: Groups, lists: map<string, seq<string>>, lower: string -> string)
    ensures OrderIrrelevant(groups, lists, lower) <==> (AllFold(groups, lists) ==> NoClash(groups, lists, lower))
  {
    hide Fold, Load;
    if AllFold(groups, lists) ==> NoClash(groups, lists, lower) {
      forall o1, o2 | Visits(lists, o1) && Visits(lists, o2)
        ensures Load(groups, lists, o1, lower) == Load(groups, lists, o2, lower)
      {
        SameLoad(groups, lists, o1, o2, lower);
      }
    } else {
      var a, b :| a in lists && b in lists && lower(a) == lower(b) && Fold(groups, lists[a]) != Fold(groups, lists[b]);
      ClashMatters(groups, lists, a, b, lower);
    }
  }

  lemma ClashMatters(groups: Groups, lists: map<string, seq<string>>, a: string, b: string, lower: string -> string)
    requires AllFold(groups, lists)
    requires a in lists && b in lists && lower(a) == lower(b) && Fold(groups, lists[a]) != Fold(groups, lists[b])
    ensures !OrderIrrelevant(groups, lists, lower)
  {
    hide Fold, Load;
    var rest := VisitingOrder(lists.Keys - {a, b});
    TwoMore(lists, rest, a, b);
    LastVisitedWins(groups, lists, rest, a, b, lower);
    LastVisitedWins(groups, lists, rest, b, a, lower);
    hide Visits, AllFold;
    assert Visits(lists, rest + [a, b]) && Visits(lists, rest + [b, a]);
  }

  lemma TwoMore(lists: map<string, seq<string>>, rest: seq<string>, a: string, b: string)
    requires a in lists && b in lists && a != b
    requires forall n :: n in rest <==> n in lists && n != a && n != b
    requires forall i, j :: 0 <= i < j < |rest| ==> rest[i] != rest[j]
    ensures Visits(lists, rest + [a, b]) && Visits(lists, rest + [b, a])
  {
    assert forall i :: 0 <= i < |rest| ==> rest[i] in rest;
  }

  lemma LoadOne(
    groups: Groups, lists: map<string, seq<string>>, order: seq<string>, lower: string -> string, n: string)
    requires (forall m <- order :: m in lists) && n in lists && Load(groups, lists, order, lower).Some?
    ensures forall m <- order + [n] :: m in lists
    ensures Load(groups, lists, order + [n], lower) ==
      if Fold(groups, lists[n]).None? then None
      else Some(Load(groups, lists, order, lower).value[lower(n) := Fold(groups, lists[n]).value])
  {
    hide Fold;
    assert (order + [n])[..|order|] == order;
  }

  /** The loop of LoadPermissions over the users, in the order its range loop takes. */
  method CalculateUsers(groups: Groups, lists: map<string, seq<string>>, lower: string -> string)
    returns (r: Option<map<string, Perms>>, ghost order: seq<string>)
    ensures r.Some? <==> AllFold(groups, lists)
    ensures r.Some? ==> Visits(lists, order) && r == Load(groups, lists, order, lower)
  {
    hide Fold, Load;
    var users: map<string, Perms> := map[];
    var left := lists.Keys;
    order := [];
    LoadNone(groups, lists, lower);
    while left != {}
      invariant left <= lists.Keys
      invariant forall n :: n in order <==> n in lists && n !in left
      invariant forall i, j :: 0 <= i < j < |order| ==> order[i] != order[j]
      invariant Load(groups, lists, order, lower) == Some(users)
      decreases |left|
    {
      var n :| n in left;
      var perms := FoldGroups(groups, lists[n]);
      if perms.None? {
        return None, order;
      }
      LoadOne(groups, lists, order, lower, n);
      users := users[lower(n) := perms.value];
      order := order + [n];
      left := left - {n};
    }
    LoadFailsExactly(groups, lists, order, lower);
    assert AllFold(groups, lists) by { assert forall n :: n in lists ==> n in order; }
    r := Some(users);
  }

  lemma LoadNone(groups: Groups, lists: map<string, seq<string>>, lower: string -> string)
    ensures Load(groups, lists, [], lower) == Some(map[])
  {
  }

  lemma {:induction false} LoadedFrom(
    groups: Groups, lists: map<string, seq<string>>, order: seq<string>, lower: string -> string, key: string)
    requires (forall n <- order :: n in lists) && Load(groups, lists, order, lower).Some?
    ensures var users := Load(groups, lists, order, lower).value;
      && (key in users <==> exists n :: n in order && lower(n) == key)
      && (key in users ==>
            exists n :: n in order && lower(n) == key && Fold(groups, lists[n]) == Some(users[key]))
    decreases |order|
  {
    hide Fold;
    if order != [] {
      var init, last := order[..|order| - 1], order[|order| - 1];
      assert forall n :: n in order <==> n in init || n == last;
      LoadedFrom(groups, lists, init, lower, key);
      if key == lower(last) {
        assert last in order;
      }
    }
  }

  ghost predicate IsUser(lists: map<string, seq<string>>, lower: string -> string, n: string, key: string) {
    n in lists && lower(n) == key
  }

  /** Every user's set is the fold of the groups listed for one of the spellings of his name, and
      every listed name has one. */
  ghost predicate FromLists(
    groups: Groups, lists: map<string, seq<string>>, users: map<string, Perms>, lower: string -> string) {
    && (forall key :: key in users ==>
          exists n :: IsUser(lists, lower, n, key) && Fold(groups, lists[n]) == Some(users[key]))
    && (forall n :: n in lists ==> lower(n) in users)
  }

  lemma LoadedFromLists(
    groups: Groups, lists: map<string, seq<string>>, order: seq<string>, lower: string -> string)
    requires Visits(lists, order) && Load(groups, lists, order, lower).Some?
    ensures FromLists(groups, lists, Load(groups, lists, order, lower).value, lower)
  {
    hide Fold, Load;
    var users := Load(groups, lists, order, lower).value;
    forall key | key in users
      ensures exists n :: IsUser(lists, lower, n, key) && Fold(groups, lists[n]) == Some(users[key])
    {
      LoadedFrom(groups, lists, order, lower, key);
      var n :| n in order && lower(n) == key && Fold(groups, lists[n]) == Some(users[key]);
      assert IsUser(lists, lower, n, key);
    }
    forall n | n in lists ensures lower(n) in users {
      assert n in order;
      LoadedFrom(groups, lists, order, lower, lower(n));
    }
  }

  lemma PlayerSet(groups: Groups, names: seq<string>)
    requires AllKnown(groups, names)
    ensures Fold(groups, names).Some?
    ensures Fold(groups, (if "default" in groups then ["default"] else []) + names)
            == Some((if "default" in groups then groups["default"] else map[]) + Fold(groups, names).value)
  {
    if "default" in groups {
      DefaultIsFirstGroup(groups, names);
    } else {
      LatestGroupWins(groups, names, "");
      assert [] + names == names;
      assert map[] + Fold(groups, names).value == Fold(groups, names).value;
    }
  }

  // ---- the globals -----------------------------------------------------------------------

  /** Both files were parsed, neither is empty, and every group a user names exists. */
  predicate Usable(newGroups: Option<Groups>, lists: Option<map<string, seq<string>>>) {
    && newGroups.Some? && newGroups.value != map[]
    && lists.Some? && lists.value != map[]
    && AllFold(newGroups.value, lists.value)
  }

  /** Groups and Users, under their lock. */
  class Store {
    const lower: string -> string
    var groups: Groups
    var users: map<string, Perms>
    ghost var lists: map<string, seq<string>>   // perm_users.yml as it was installed

    ghost predicate Valid()
      reads this
    {
      FromLists(groups, lists, users, lower)
    }

    constructor (lower: string -> string)
      ensures groups == map[] && users == map[] && this.lower == lower && Valid()
    {
      this.lower, groups, users, lists := lower, map[], map[], map[];
    }

    /** LoadPermissions, given the contents of the two files, if they could be parsed. It
        installs both tables or, on any error, changes nothing. */
    method LoadPermissions(newGroups: Option<Groups>, newLists: Option<map<string, seq<string>>>)
      returns (ok: bool, ghost order: seq<string>)
      requires Valid()
      modifies this
      ensures Valid()
      ensures ok <==> Usable(newGroups, newLists)
      ensures ok ==>
        && groups == newGroups.value && lists == newLists.value
        && Visits(lists, order) && Some(users) == Load(groups, lists, order, lower)
      ensures !ok ==> groups == old(groups) && users == old(users) && lists == old(lists)
    {
      hide AllFold, Load, Visits, FromLists;
      order := [];
      if newGroups.None? || |newGroups.value| < 1 {
        return false, order;
      }
      if newLists.None? || |newLists.value| < 1 {
        return false, order;
      }
      var r;
      r, order := CalculateUsers(newGroups.value, newLists.value, lower);
      if r.None? {
        return false, order;
      }
      groups, users, lists := newGroups.value, r.value, newLists.value;
      LoadedFromLists(groups, lists, order, lower);
      ok := true;
    }

    /** The groups that count for a nickname: the default group, if there is one, then those
        listed for a spelling of it, if it is listed. */
    ghost predicate GroupsOf(nickname: string, names: seq<string>)
      reads this
    {
      var base := if "default" in groups then ["default"] else [];
      if exists n :: IsUser(lists, lower, n, lower(nickname)) then
        exists n :: IsUser(lists, lower, n, lower(nickname)) && names == base + lists[n]
      else names == base
    }

    /** What a player may do after the permissions were loaded: the most specific key of the
        groups that count for him decides, the latest group first, the default group last. */
    method Query(nickname: string, perm: string) returns (v: bool, ghost names: seq<string>)
      requires Valid()
      ensures GroupsOf(nickname, names) && DecidedBy(groups, names, perm, v)
    {
      var ps := GetPlayerPermissions(nickname);
      v := ps.HasPermission(perm);
      ghost var key := lower(nickname);
      names := if "default" in groups then ["default"] else [];
      if key in users {
        ghost var n :| IsUser(lists, lower, n, key) && Fold(groups, lists[n]) == Some(users[key]);
        LatestGroupWins(groups, lists[n], "");
        PlayerSet(groups, lists[n]);
        names := names + lists[n];
      } else {
        PlayerSet(groups, []);
        assert names + [] == names;
      }
      assert Fold(groups, names) == Some(ps.ps);
      LatestGroupWins(groups, names, "");
      AnswerIsDecided(groups, names, perm, v);
    }

    /** GetPlayerPermissions: the default group first, the user's set on top. A missing group or
        user reads as an empty set. */
    method GetPlayerPermissions(nickname: string) returns (r: PermSet)
      ensures fresh(r)
      ensures r.ps == (if "default" in groups then groups["default"] else map[])
                      + (if lower(nickname) in users then users[lower(nickname)] else map[])
    {
      r := new PermSet();
      var ok := r.Apply(if "default" in groups then groups["default"] else map[], "", true);
      assert map[] + r.ps == r.ps;
      ok := r.Apply(if lower(nickname) in users then users[lower(nickname)] else map[], "", true);
    }
  }
}
