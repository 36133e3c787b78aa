/** Ownership of payload buffers: packets/reader.go takes one from the pool for every frame,
    read_packets gives it back after parsing or hands it to the main loop with the raw packet,
    and handlePacket gives it back after writing. Any number of readers run beside the main
    loop, interleaved at every point where a buffer is touched. */
module Buffers {
  import opened Common

  /** Where a reader stands. A buffer is named by the number of the Get that returned it. */
  datatype Pc =
    | Top                          // before ReadPacket
    | Reading                      // slicer cleared, blocked on the network
    | Filled(buf: nat)             // frame read, slicer set on it
    | Identified(buf: nat)         // header and packet ID read through the slicer
    | Parsed(buf: nat)             // Parse has copied what it needs (CopyField)
    | Offering(packet: Option<nat>)  // at the channel, with a raw payload or a parsed packet
    | Exited

  /** `slicer` is the payload the frame reader still points to, directly or through zlib. */
  datatype Reader = Reader(pc: Pc, slicer: Option<nat>)

  datatype Main = Idle | Handling(packet: Option<nat>) | Written(buf: nat) | Stopped

  /** `gets` counts the buffers handed out; `puts` lists those returned; `misused` records a
      use after the return, or a second return. */
  datatype World = World(readers: seq<Reader>, main: Main, gets: nat, puts: seq<nat>, misused: bool)

  /** What a reader goroutine does next. */
  datatype Action =
    | CallReadPacket
    | ReadFrame(complete: bool)
    | ReadHeader(ok: bool)
    | ParsePayload(ok: bool)
    | PutAfterParse
    | OfferRaw
    | HandOver
    | Quit

  datatype Step =
    | StartReader
    | ByReader(r: nat, action: Action)
    | WriteOut(ok: bool)
    | PutAfterWrite
    | Finish

  function Use(w: World, buf: Option<nat>): World {
    w.(misused := w.misused || buf.None? || buf.value >= w.gets || buf.value in w.puts)
  }

  function Put(w: World, buf: nat): World {
    w.(puts := w.puts + [buf], misused := w.misused || buf >= w.gets || buf in w.puts)
  }

  function Go(w: World, r: nat, pc: Pc): World
    requires r < |w.readers|
  {
    w.(readers := w.readers[r := w.readers[r].(pc := pc)])
  }

  function Act(w: World, r: nat, action: Action): World
    requires r < |w.readers|
  {
    var reader := w.readers[r];
    match (action, reader.pc)
    case (CallReadPacket, Top) => w.(readers := w.readers[r := Reader(Reading, None)])
    case (ReadFrame(complete), Reading) =>
      // BufferPool.Get, then ReadFull into the buffer
      var buf := w.gets;
      var w' := Use(w.(gets := w.gets + 1), Some(buf));
      if complete then w'.(readers := w.readers[r := Reader(Filled(buf), Some(buf))]) else Go(w', r, Exited)
    case (ReadHeader(ok), Filled(buf)) =>
      Go(Use(w, reader.slicer), r, if ok then Identified(buf) else Exited)
    case (ParsePayload(ok), Identified(buf)) =>
      // Payload and Parse read through the slicer; after an error the packet is dumped
      if ok then Go(Use(w, reader.slicer), r, Parsed(buf))
      else Go(Use(Use(w, reader.slicer), Some(buf)), r, Exited)
    case (PutAfterParse, Parsed(buf)) => Go(Put(w, buf), r, Offering(None))
    case (OfferRaw, Identified(buf)) => Go(w, r, Offering(Some(buf)))
    case (HandOver, Offering(packet)) =>
      if w.main.Idle? then Go(w, r, Top).(main := Handling(packet)) else w
    case (Quit, Offering(_)) => Go(w, r, Exited)
    case _ => w
  }

  function Next(w: World, step: Step): World {
    match step
    case StartReader => w.(readers := w.readers + [Reader(Top, None)])
    case WriteOut(ok) =>
      if w.main.Handling? && w.main.packet.Some? then
        Use(w, w.main.packet).(main := if ok then Written(w.main.packet.value) else Stopped)
      else w
    case PutAfterWrite => if w.main.Written? then Put(w, w.main.buf).(main := Idle) else w
    case Finish => if w.main.Handling? && w.main.packet.None? then w.(main := Idle) else w
    case ByReader(r, action) => if r < |w.readers| then Act(w, r, action) else w
  }

  function Run(w: World, steps: seq<Step>): World {
    if steps == [] then w else Next(Run(w, steps[..|steps| - 1]), steps[|steps| - 1])
  }

  // ---- the owner of a buffer -------------------------------------------------------------

  function Held(pc: Pc): Option<nat> {
    match pc
    case Filled(buf) => Some(buf)
    case Identified(buf) => Some(buf)
    case Parsed(buf) => Some(buf)
    case Offering(packet) => packet
    case _ => None
  }

  function HeldByMain(main: Main): Option<nat> {
    match main
    case Handling(packet) => packet
    case Written(buf) => Some(buf)
    case _ => None
  }

  /** Handed out and not yet returned. */
  predicate Live(w: World, held: Option<nat>) {
    held.Some? ==> held.value < w.gets && held.value !in w.puts
  }

  predicate Apart(a: Option<nat>, b: Option<nat>) {
    a.Some? ==> a != b
  }

  predicate Distinct(puts: seq<nat>) {
    forall i, j :: 0 <= i < j < |puts| ==> puts[i] != puts[j]
  }

  /** While a reader may still read through its slicer, it owns what the slicer points to. */
  predicate SlicerOwned(r: Reader) {
    r.pc.Filled? || r.pc.Identified? ==> r.slicer == Some(r.pc.buf)
  }

  ghost predicate Owned(w: World) {
    && !w.misused && Distinct(w.puts)
    && (forall i :: 0 <= i < |w.puts| ==> w.puts[i] < w.gets)
    && Live(w, HeldByMain(w.main))
    && (forall r :: 0 <= r < |w.readers| ==>
          && Live(w, Held(w.readers[r].pc)) && SlicerOwned(w.readers[r])
          && Apart(Held(w.readers[r].pc), HeldByMain(w.main)))
    && (forall r, q :: 0 <= r < q < |w.readers| ==> Apart(Held(w.readers[r].pc), Held(w.readers[q].pc)))
  }

  lemma ReadFrameKeepsOwned(w: World, r: nat, complete: bool)
    requires Owned(w) && r < |w.readers|
    ensures Owned(Act(w, r, ReadFrame(complete)))
  {
  }

  /** A reader that keeps or loses what it holds, and uses only that. */
  lemma GoKeepsOwned(w: World, r: nat, reader: Reader)
    requires Owned(w) && r < |w.readers| && SlicerOwned(reader)
    requires Held(reader.pc) == Held(w.readers[r].pc) || Held(reader.pc) == None
    ensures Owned(w.(readers := w.readers[r := reader]))
  {
  }

  /** The other actions of a reader: nothing is taken, returned or handed over. */
  lemma ReaderKeepsOwned(w: World, r: nat, action: Action)
    requires Owned(w) && r < |w.readers|
    requires !action.HandOver? && !action.PutAfterParse? && !action.ReadFrame?
    ensures Owned(Act(w, r, action))
  {
    var w' := Act(w, r, action);
    assert w'.main == w.main && w'.puts == w.puts && w'.gets == w.gets && !w'.misused;
    GoKeepsOwned(w, r, w'.readers[r]);
    assert w' == w.(readers := w.readers[r := w'.readers[r]]);
  }

  lemma PutKeepsOwned(w: World, r: nat)
    requires Owned(w) && r < |w.readers|
    ensures Owned(Act(w, r, PutAfterParse))
  {
  }

  /** The buffer changes hands: from reader r to the main loop. */
  lemma HandOverKeepsOwned(w: World, r: nat)
    requires Owned(w) && r < |w.readers|
    ensures Owned(Act(w, r, HandOver))
  {
  }

  lemma StepKeepsOwned(w: World, step: Step)
    requires Owned(w)
    ensures Owned(Next(w, step))
  {
    hide Act;
    match step
    case ByReader(r, action) =>
      if r < |w.readers| {
        match action
        case HandOver => HandOverKeepsOwned(w, r);
        case PutAfterParse => PutKeepsOwned(w, r);
        case ReadFrame(complete) => ReadFrameKeepsOwned(w, r, complete);
        case _ => ReaderKeepsOwned(w, r, action);
      }
    case _ =>
  }

  /** In every run of any number of readers with the main loop, no buffer is returned twice
      and none is touched after its return. */
  lemma {:induction false} BuffersNeverMisused(w: World, steps: seq<Step>)
    requires w == World([], Idle, 0, [], false)
    ensures !Run(w, steps).misused && Distinct(Run(w, steps).puts)
    ensures Owned(Run(w, steps))
    decreases |steps|
  {
    if steps != [] {
      hide Next;
      BuffersNeverMisused(w, steps[..|steps| - 1]);
      StepKeepsOwned(Run(w, steps[..|steps| - 1]), steps[|steps| - 1]);
    }
  }

  // ---- what a parsed packet holds --------------------------------------------------------

  type byte = b: int | 0 <= b < 0x100

  /** A byte field of a packet: io.CopyN into a buffer of its own. The packet holds no part of
      the payload. */
  method CopyField(payload: array<byte>, from: nat, length: nat) returns (field: array<byte>)
    requires from + length <= payload.Length
    ensures fresh(field) && field[..] == payload[from..from + length]
  {
    field := new byte[length](i => 0);
    for i := 0 to length
      invariant field[..i] == payload[from..from + i]
    {
      field[i] := payload[from + i];
    }
  }

  /** Parsing, returning the payload to the pool, and whatever is read into it by its next owner:
      the field of the packet stays what was parsed. */
  method ParsedOutlivesPut(payload: array<byte>, from: nat, length: nat, next: seq<byte>)
    returns (field: array<byte>)
    requires from + length <= payload.Length && |next| <= payload.Length
    modifies payload
    ensures fresh(field) && field[..] == old(payload[from..from + length])
    ensures payload[..|next|] == next
  {
    field := CopyField(payload, from, length);
    forall i | 0 <= i < |next| {
      payload[i] := next[i];
    }
  }
}
