/**
 * Output reports on their way to the application's callback: the reader thread queues them, dropping
 * those that find 64 waiting, and the callback thread takes them one at a time.
 */
module MacosDelivery {
  import opened Bytes

  const QUEUE_LIMIT: nat := 64

  type Report = seq<Byte>

  datatype Reader = Reading | Finished | Stopping

  /**
   * `reports` and `stop` are the shared fields; `arrived` and `delivered` record what the reader read
   * and what the callback thread took, `kept` which of the arrivals found room.
   */
  datatype Delivery = Delivery(
    reader: Reader, reports: seq<Report>, stop: bool, exited: bool,
    arrived: seq<Report>, kept: seq<nat>, delivered: seq<Report>)

  const CREATED: Delivery := Delivery(Reading, [], false, false, [], [], [])

  /** `CloseStop` is what `close` does after joining the reader. */
  datatype Op = Arrive(report: Report) | ReaderLeaves | ReaderStops | CloseStop | Take

  function Step(d: Delivery, op: Op): Delivery {
    match op
    case Arrive(report) =>
      if !d.reader.Reading? then d
      else
        var read := d.(arrived := d.arrived + [report]);
        if |d.reports| < QUEUE_LIMIT
        then read.(reports := d.reports + [report], kept := d.kept + [|d.arrived|])
        else read
    case ReaderLeaves => if d.reader.Reading? then d.(reader := Finished) else d
    case ReaderStops => if d.reader.Finished? then d.(reader := Stopping, stop := true) else d
    case CloseStop => if d.reader.Stopping? then d.(stop := true) else d
    case Take =>
      if d.exited then d
      else if d.reports != [] then d.(reports := d.reports[1..], delivered := d.delivered + [d.reports[0]])
      else if d.stop then d.(exited := true)
      else d
  }

  function Run(ops: seq<Op>): Delivery
    decreases |ops|
  {
    if ops == [] then CREATED else Step(Run(ops[..|ops| - 1]), ops[|ops| - 1])
  }

  /** The arrivals at the given positions, in that order. */
  function Picked(arrived: seq<Report>, kept: seq<nat>): seq<Report>
    requires Positions(kept, |arrived|)
  {
    seq(|kept|, i requires 0 <= i < |kept| => arrived[kept[i]])
  }

  /** Increasing positions below a bound. */
  predicate Positions(kept: seq<nat>, bound: nat) {
    && (forall i :: 0 <= i < |kept| ==> kept[i] < bound)
    && (forall i :: 0 < i < |kept| ==> kept[i - 1] < kept[i])
  }

  predicate Inv(d: Delivery) {
    && |d.reports| <= 64
    && Positions(d.kept, |d.arrived|)
    && d.delivered + d.reports == Picked(d.arrived, d.kept)
    && (d.stop ==> d.reader.Stopping?)
    && (d.exited ==> d.stop && d.reports == [])
  }

  lemma PickedGrows(arrived: seq<Report>, report: Report, kept: seq<nat>)
    requires Positions(kept, |arrived|)
    ensures Positions(kept, |arrived| + 1)
    ensures Picked(arrived + [report], kept) == Picked(arrived, kept)
    ensures Positions(kept + [|arrived|], |arrived| + 1)
    ensures Picked(arrived + [report], kept + [|arrived|]) == Picked(arrived, kept) + [report]
  {
  }

  lemma StepKeeps(d: Delivery, op: Op)
    requires Inv(d)
    ensures Inv(Step(d, op))
  {
    hide Picked, Positions;
    match op
    case Arrive(report) =>
      PickedGrows(d.arrived, report, d.kept);
      assert d.delivered + (d.reports + [report]) == d.delivered + d.reports + [report];
    case Take =>
      if d.reports != [] {
        assert d.delivered + [d.reports[0]] + d.reports[1..] == d.delivered + d.reports;
      }
    case _ =>
  }

  /**
   * In every interleaving: at most 64 reports wait, those taken followed by those waiting are an
   * in-order selection of the arrivals, and the callback thread exits only when none is left.
   */
  lemma {:induction false} RunKeeps(ops: seq<Op>)
    ensures Inv(Run(ops))
    decreases |ops|
  {
    hide Inv, Step;
    if ops != [] {
      RunKeeps(ops[..|ops| - 1]);
      StepKeeps(Run(ops[..|ops| - 1]), ops[|ops| - 1]);
    } else {
      CreatedInv();
    }
  }

  lemma CreatedInv()
    ensures Inv(CREATED)
  {
  }

  /** A report is left out exactly when 64 are waiting as it arrives. */
  lemma DroppedIffFull(d: Delivery, report: Report)
    requires Inv(d) && d.reader.Reading?
    ensures var after := Step(d, Arrive(report));
            && |after.arrived| == |d.arrived| + 1
            && (after.kept == d.kept + [|d.arrived|] <==> |d.reports| < 64)
            && (after.kept == d.kept <==> |d.reports| == 64)
  {
    hide Picked;
    assert |d.kept + [|d.arrived|]| == |d.kept| + 1;
  }

  /** Once the callback thread has gone, nothing is waiting and nothing can come. */
  lemma ExitedIsFinal(ops: seq<Op>, op: Op)
    requires Run(ops).exited
    ensures Positions(Run(ops).kept, |Run(ops).arrived|)
    ensures Run(ops).delivered == Picked(Run(ops).arrived, Run(ops).kept)
    ensures Step(Run(ops), op) == Run(ops)
  {
    hide Run, Picked, Positions;
    RunKeeps(ops);
    var d := Run(ops);
    assert d.delivered + [] == d.delivered;
  }

  predicate NeverFull(ops: seq<Op>)
    decreases |ops|
  {
    ops != [] ==>
      var before := ops[..|ops| - 1];
      NeverFull(before) && (ops[|ops| - 1].Arrive? ==> |Run(before).reports| < QUEUE_LIMIT)
  }

  /** When no arrival finds the queue full, every report is delivered or waiting, in order. */
  lemma {:induction false} NothingLost(ops: seq<Op>)
    requires NeverFull(ops)
    ensures Run(ops).delivered + Run(ops).reports == Run(ops).arrived
    decreases |ops|
  {
    if ops != [] {
      NothingLost(ops[..|ops| - 1]);
      var d := Run(ops[..|ops| - 1]);
      match ops[|ops| - 1]
      case Arrive(report) => assert d.delivered + (d.reports + [report]) == d.delivered + d.reports + [report];
      case Take =>
        if d.reports != [] {
          assert d.delivered + [d.reports[0]] + d.reports[1..] == d.delivered + d.reports;
        }
      case _ =>
    }
  }

  // ----- The shared state ----------------------------------------------------------------------

  class CallbackState {
    var reports: seq<Report>
    var stop: bool
    var reader: Reader
    var exited: bool
    ghost var arrived: seq<Report>
    ghost var kept: seq<nat>
    ghost var delivered: seq<Report>

    ghost function View(): Delivery
      reads this
    {
      Delivery(reader, reports, stop, exited, arrived, kept, delivered)
    }

    constructor ()
      ensures View() == CREATED
    {
      reports, stop, reader, exited := [], false, Reading, false;
      arrived, kept, delivered := [], [], [];
    }

    /** The reader has an output event in hand. */
    method QueueReport(report: Report)
      requires reader.Reading?
      modifies this`reports, this`arrived, this`kept
      ensures View() == Step(old(View()), Arrive(report))
    {
      if |reports| < QUEUE_LIMIT {
        reports := reports + [report];
        kept := kept + [|arrived|];
      }
      arrived := arrived + [report];
    }

    method LeaveLoop()
      requires reader.Reading?
      modifies this`reader
      ensures View() == Step(old(View()), ReaderLeaves)
    {
      reader := Finished;
    }

    method StopFromReader()
      requires reader.Finished?
      modifies this`reader, this`stop
      ensures View() == Step(old(View()), ReaderStops)
    {
      stop := true;
      reader := Stopping;
    }

    /** `close` has joined the reader thread. */
    method StopFromClose()
      requires reader.Stopping?
      modifies this`stop
      ensures View() == Step(old(View()), CloseStop)
    {
      stop := true;
    }

    /** One turn of the callback loop, woken with something to take or told to stop. */
    method TakeReport() returns (report: Report, taken: bool)
      requires !exited && (stop || reports != [])
      modifies this`reports, this`exited, this`delivered
      ensures View() == Step(old(View()), Take)
      ensures taken <==> old(reports) != []
      ensures taken ==> report == old(reports)[0]
    {
      if reports == [] {
        exited := true;
        return [], false;
      }
      report, taken := reports[0], true;
      reports := reports[1..];
      delivered := delivered + [report];
    }
  }
}
