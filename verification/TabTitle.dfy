/** The title above and below the player list: TabList sends its own, and so do upstream switches
    and upstreams, which the tab list is not told of. */
module TabTitle {
  import opened Common
  import opened PlayPackets
  import opened PlayerTable
  import opened Messages
  import opened TabList

  // ---- what happened in a run ------------------------------------------------------------

  /** The last title set on the tab list, or the one the client had at first. */
  function LastSet(st: State, steps: seq<Step>): Option<Title> {
    if steps == [] then st.clientTitle
    else if steps[|steps| - 1].SetTitle? then Some(steps[|steps| - 1].title)
    else LastSet(st, steps[..|steps| - 1])
  }

  /** The last title a flush handed over, or the one the client had at first. */
  function LastAccepted(st: State, steps: seq<Step>): Option<Title>
    requires |st.local.cells| == CELLS
  {
    if steps == [] then st.clientTitle
    else
      var before, step := steps[..|steps| - 1], steps[|steps| - 1];
      if step == Flush(true) && Run(st, before).local.title.Some? then Run(st, before).local.title
      else LastAccepted(st, before)
  }

  /** Whether the last title set was in a flush that was refused. */
  predicate Refused(st: State, steps: seq<Step>)
    requires |st.local.cells| == CELLS
  {
    steps != [] &&
      (var before, step := steps[..|steps| - 1], steps[|steps| - 1];
       if step.SetTitle? then false
       else if step == Flush(false) && Run(st, before).local.title.Some? then true
       else Refused(st, before))
  }

  /** The last title of someone else that reached the client after the last of the tab list. */
  function OverTitle(st: State, steps: seq<Step>): Option<Title>
    requires |st.local.cells| == CELLS
  {
    if steps == [] then None
    else
      var before, step := steps[..|steps| - 1], steps[|steps| - 1];
      var queue := Run(st, before).queue;
      if step.OtherPacket? && step.m.TitleMsg? then Some(Title(step.m.header, step.m.footer))
      else if step.Deliver? && queue != [] && queue[0].TitleBar? then None
      else OverTitle(st, before)
  }

  // ---- what is on its way ----------------------------------------------------------------

  /** The last title in a queue. */
  function TitleIn(queue: seq<Queued>): Option<Title> {
    if queue == [] then None
    else if queue[|queue| - 1].TitleBar? then Some(queue[|queue| - 1].bar)
    else TitleIn(queue[..|queue| - 1])
  }

  lemma {:induction false} TitleInConcat(a: seq<Queued>, b: seq<Queued>)
    ensures TitleIn(a + b) == if TitleIn(b).Some? then TitleIn(b) else TitleIn(a)
    decreases |b|
  {
    if b == [] {
      assert a + b == a;
    } else {
      assert (a + b)[..|a + b| - 1] == a + b[..|b| - 1];
      TitleInConcat(a, b[..|b| - 1]);
    }
  }

  lemma TitleInOne(packet: Queued)
    ensures TitleIn([packet]) == if packet.TitleBar? then Some(packet.bar) else None
  {
    assert [packet][..0] == [];
  }

  lemma TitleInPending(l: Local)
    ensures TitleIn(Pending(l)) == l.title
  {
    var names := if l.changedNames != [] then [Names(l.changedNames)] else [];
    var pings := if l.changedPings != [] then [Pings(l.changedPings)] else [];
    var bar := if l.title.Some? then [TitleBar(l.title.value)] else [];
    TitleInConcat(names, pings);
    TitleInConcat(Lists(l), bar);
    TitleInOne(Full);
    TitleInOne(Names(l.changedNames));
    TitleInOne(Pings(l.changedPings));
    if l.title.Some? {
      TitleInOne(TitleBar(l.title.value));
    }
  }

  // ---- every run -------------------------------------------------------------------------

  ghost predicate Accounts(st: State, steps: seq<Step>)
    requires |st.local.cells| == CELLS
  {
    var r, accepted, over := Run(st, steps), LastAccepted(st, steps), OverTitle(st, steps);
    && (r.local.title.Some? ==> r.local.title == LastSet(st, steps))
    && (r.local.title.None? && !Refused(st, steps) ==> accepted == LastSet(st, steps))
    && (TitleIn(r.queue).Some? ==> TitleIn(r.queue) == accepted)
    && (TitleIn(r.queue).None? ==> r.clientTitle == if over.Some? then over else accepted)
  }

  lemma FlushAccounts(st: State, steps: seq<Step>, accepted: bool)
    requires |st.local.cells| == CELLS && Accounts(st, steps)
    ensures Accounts(st, steps + [Flush(accepted)])
  {
    hide Run, TitleIn, Pending;
    Unfold(st, steps, Flush(accepted));
    var before := Run(st, steps);
    TitleInPending(before.local);
    TitleInConcat(before.queue, Pending(before.local));
    if Pending(before.local) == [] {
      NoTitle();
    }
  }

  lemma NoTitle()
    ensures TitleIn([]) == None
  {
  }

  lemma DeliverAccounts(st: State, steps: seq<Step>)
    requires |st.local.cells| == CELLS && Accounts(st, steps)
    ensures Accounts(st, steps + [Deliver])
  {
    hide Run, TitleIn;
    Unfold(st, steps, Deliver);
    var before := Run(st, steps);
    if before.queue != [] {
      assert before.queue == [before.queue[0]] + before.queue[1..];
      TitleInConcat([before.queue[0]], before.queue[1..]);
      TitleInOne(before.queue[0]);
    }
  }

  lemma Unfold(st: State, steps: seq<Step>, step: Step)
    requires |st.local.cells| == CELLS
    ensures (steps + [step])[..|steps|] == steps
    ensures Run(st, steps + [step]) == Next(Run(st, steps), step)
  {
    assert (steps + [step])[..|steps|] == steps;
  }

  lemma {:induction false} RunAccounts(st: State, steps: seq<Step>)
    requires Initial(st)
    ensures Accounts(st, steps)
    decreases |steps|
  {
    if steps != [] {
      var before, step := steps[..|steps| - 1], steps[|steps| - 1];
      assert steps == before + [step];
      RunAccounts(st, before);
      match step
      case Flush(accepted) => FlushAccounts(st, before, accepted);
      case Deliver => DeliverAccounts(st, before);
      case _ => QuietAccounts(st, before, step);
    }
  }

  lemma QuietAccounts(st: State, steps: seq<Step>, step: Step)
    requires |st.local.cells| == CELLS && Accounts(st, steps)
    requires !step.Flush? && !step.Deliver?
    ensures Accounts(st, steps + [step])
  {
    hide Run, TitleIn;
    Unfold(st, steps, step);
  }

  /** In every run, once the title set has been flushed and the queue is drained: the client shows
      the last title set exactly if no title of someone else reached it after the tab list's
      last, or the same one did last, and the last title set was not refused, or is the one
      accepted before. */
  lemma TitleShownExactly(st: State, steps: seq<Step>)
    requires Initial(st)
    ensures var r, over := Run(st, steps), OverTitle(st, steps);
      r.queue == [] && r.local.title.None? ==>
        (r.clientTitle == LastSet(st, steps) <==>
           if over.Some? then over == LastSet(st, steps)
           else !Refused(st, steps) || LastAccepted(st, steps) == LastSet(st, steps))
  {
    RunAccounts(st, steps);
    NoTitle();
    hide Run, LastSet, LastAccepted, OverTitle, Refused;
  }

  // ---- the switch ------------------------------------------------------------------------

  /** These packets reach the client one after another. */
  function Others(ms: seq<Msg>): (steps: seq<Step>)
    ensures |steps| == |ms|
  {
    seq(|ms|, i requires 0 <= i < |ms| => OtherPacket(ms[i]))
  }

  const EMPTY_TITLE := Title(EMPTY_TEXT, EMPTY_TEXT)

  lemma {:induction false} RunConcat(st: State, a: seq<Step>, b: seq<Step>)
    requires |st.local.cells| == CELLS
    ensures Run(st, a + b) == Run(Run(st, a), b)
    decreases |b|
  {
    if b == [] {
      assert a + b == a;
    } else {
      assert (a + b)[..|a + b| - 1] == a + b[..|b| - 1];
      RunConcat(st, a, b[..|b| - 1]);
    }
  }

  /** After a switch the client shows the empty title, whatever it showed, and nothing in the tab
      list or on its way will change that. */
  lemma SwitchHidesTitle(st: State, order: seq<PlayerListItem>, join: Join)
    requires |st.local.cells| == CELLS
    ensures var r := Run(st, Others(SwitchBlock(order, join)));
      r.clientTitle == Some(EMPTY_TITLE) && r.local == st.local && r.queue == st.queue
  {
    var block := SwitchBlock(order, join);
    var steps := Others(block);
    hide ApplyMsg, Avoids;
    OthersRun(st, block, 6);
    assert steps[..6] == steps;
    OthersTitle(st, block, 2);
    OthersQuiet(st, block, 2, 6);
  }

  lemma OthersStep(st: State, ms: seq<Msg>, k: nat)
    requires |st.local.cells| == CELLS && 0 < k <= |ms|
    ensures Run(st, Others(ms)[..k]) == DoOther(Run(st, Others(ms)[..k - 1]), ms[k - 1])
  {
    hide Run, DoOther, DoFlush, DoDeliver;
    assert Others(ms)[..k] == Others(ms)[..k - 1] + [OtherPacket(ms[k - 1])];
    Unfold(st, Others(ms)[..k - 1], OtherPacket(ms[k - 1]));
  }

  lemma EmptyRun(st: State)
    requires |st.local.cells| == CELLS
    ensures Run(st, []) == st
  {
  }

  lemma {:induction false} OthersRun(st: State, ms: seq<Msg>, k: nat)
    requires |st.local.cells| == CELLS && k <= |ms|
    ensures Run(st, Others(ms)[..k]).local == st.local && Run(st, Others(ms)[..k]).queue == st.queue
  {
    hide Run, Others, ApplyMsg, Avoids;
    EmptyRun(st);
    if k > 0 {
      OthersStep(st, ms, k);
      OthersRun(st, ms, k - 1);
    }
  }

  lemma OthersTitle(st: State, ms: seq<Msg>, k: nat)
    requires |st.local.cells| == CELLS && 0 < k <= |ms| && ms[k - 1].TitleMsg?
    ensures Run(st, Others(ms)[..k]).clientTitle == Some(Title(ms[k - 1].header, ms[k - 1].footer))
  {
    hide Run, Others, ApplyMsg, Avoids;
    OthersStep(st, ms, k);
  }

  lemma {:induction false} OthersQuiet(st: State, ms: seq<Msg>, j: nat, k: nat)
    requires |st.local.cells| == CELLS && j <= k <= |ms| && forall i :: j <= i < k ==> !ms[i].TitleMsg?
    ensures Run(st, Others(ms)[..k]).clientTitle == Run(st, Others(ms)[..j]).clientTitle
    decreases k
  {
    hide Run, Others, ApplyMsg, Avoids;
    if j < k {
      OthersStep(st, ms, k);
      OthersQuiet(st, ms, j, k - 1);
    }
  }

  /** Set a title, flush, deliver everything. */
  function ShowTitle(title: Title): seq<Step> {
    [SetTitle(title), Flush(true)] + seq(CELLS, i => SerializeCell) + [Deliver, Deliver]
  }

  lemma {:induction false} SerializeAll(st: State, k: nat)
    requires |st.local.cells| == CELLS && k <= CELLS
    requires st.queue != [] && st.queue[0].Full? && st.serialized == []
    ensures var r := Run(st, seq(k, i => SerializeCell));
      r == st.(serialized := r.serialized) && |r.serialized| == k
  {
    if k > 0 {
      assert seq(k, i => SerializeCell)[..k - 1] == seq(k - 1, i => SerializeCell);
      SerializeAll(st, k - 1);
    } else {
      assert seq(k, i => SerializeCell) == [];
    }
  }

  lemma {:induction false} LastSetConcat(st: State, a: seq<Step>, b: seq<Step>)
    requires forall i :: 0 <= i < |b| ==> !b[i].SetTitle?
    ensures LastSet(st, a + b) == LastSet(st, a)
    decreases |b|
  {
    if b == [] {
      assert a + b == a;
    } else {
      assert (a + b)[..|a + b| - 1] == a + b[..|b| - 1];
      LastSetConcat(st, a, b[..|b| - 1]);
    }
  }

  /** A run of a new tab list in which its title is shown. */
  lemma TitleIsShown(st: State, title: Title)
    requires Initial(st)
    ensures var r := Run(st, ShowTitle(title));
      && r.clientTitle == Some(title) && r.queue == [] && Pending(r.local) == []
      && LastSet(st, ShowTitle(title)) == Some(title)
  {
    hide ApplyItems;
    var a := Next(Next(st, SetTitle(title)), Flush(true));
    var start, middle, end := [SetTitle(title), Flush(true)], seq(CELLS, i => SerializeCell), [Deliver, Deliver];
    assert start[..1] == [SetTitle(title)] && [SetTitle(title)][..0] == [];
    assert Run(st, [SetTitle(title)]) == Next(st, SetTitle(title));
    assert Run(st, start) == a;
    assert a.queue == [Full, TitleBar(title)] by { assert st.queue == []; }
    SerializeAll(a, CELLS);
    RunConcat(st, start, middle);
    RunConcat(st, start + middle, end);
    LastSetConcat(st, [SetTitle(title)], [Flush(true)] + middle + end);
    assert ShowTitle(title) == [SetTitle(title)] + ([Flush(true)] + middle + end);
    var b := Run(a, middle);
    assert end[..1] == [Deliver] && [Deliver][..0] == [];
    assert Run(b, [Deliver]) == Next(b, Deliver);
    assert Run(b, end) == Next(Next(b, Deliver), Deliver);
  }

  /** And how it is lost: the one flush was accepted, nothing is pending or on its way, and after
      a switch the client shows the empty title instead of the last one set. */
  lemma TitleLostInSwitch(st: State, title: Title, order: seq<PlayerListItem>, join: Join)
    requires Initial(st) && title != EMPTY_TITLE
    ensures var steps := ShowTitle(title) + Others(SwitchBlock(order, join));
      var r := Run(st, steps);
      && r.queue == [] && Pending(r.local) == []
      && Run(st, ShowTitle(title)).clientTitle == Some(title)
      && LastSet(st, steps) == Some(title) && r.clientTitle == Some(EMPTY_TITLE)
  {
    hide ShowTitle;
    TitleIsShown(st, title);
    RunConcat(st, ShowTitle(title), Others(SwitchBlock(order, join)));
    LastSetConcat(st, ShowTitle(title), Others(SwitchBlock(order, join)));
    SwitchHidesTitle(Run(st, ShowTitle(title)), order, join);
  }
}
