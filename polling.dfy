/**
  The slave status table of the web application and the Modbus polling
  loop that refreshes it: sixteen slaves, one holding register each, read
  in ascending order once per cycle.
 */
module Polling {
  import opened Wrappers

  const FirstSlave: int := 1
  const LastSlave: int := 16
  const SlaveCount: nat := 16
  /** The holding register that carries a silo's level, and how many are read. */
  const RegisterAddress: int := 10
  const RegisterCount: int := 1
  /** The raw register value of a full silo. */
  const FullScale: int := 28000

  predicate IsSlaveId(id: int) {
    FirstSlave <= id <= LastSlave
  }

  /** The bounds keep the set finite; `IsSlaveId(id)` gives the comprehension its trigger. */
  function SlaveIds(): set<int> {
    set id | FirstSlave <= id <= LastSlave && IsSlaveId(id)
  }

  /** One entry of the table: the last raw value, its percentage, the online flag, the time of the last good read. */
  datatype Entry = Entry(value: Option<int>, percent: Option<int>, online: bool, lastOk: Option<int>)

  const NeverRead: Entry := Entry(None, None, false, None)

  /** A holding-register read request as it goes on the bus. */
  datatype ReadRequest = ReadRequest(address: int, count: int, deviceId: int)

  /**
    What a read gives back: a response with a register list, a response
    without one, or an exception (a timeout or any other error).
   */
  datatype Response = Registers(registers: seq<int>) | NoRegisters | Failure

  function InitialTable(): (t: map<int, Entry>)
    ensures t.Keys == SlaveIds()
    ensures forall id :: id in t ==> t[id] == NeverRead
  {
    map id | id in SlaveIds() :: NeverRead
  }

  /** The fill percentage of a raw register value, clamped to [0, 100]. */
  function Percent(value: int): (p: int)
    ensures 0 <= p <= 100
    ensures 0 <= value <= FullScale ==> p == value * 100 / FullScale
    ensures FullScale <= value ==> p == 100
    ensures value <= 0 ==> p == 0
  {
    Min(100, Max(0, value * 100 / FullScale))
  }

  lemma PercentMonotone(a: int, b: int)
    requires a <= b
    ensures Percent(a) <= Percent(b)
  {
  }

  /** The entry after a good read of `value` at time `now`. */
  function Refreshed(value: int, now: int): Entry {
    Entry(Some(value), Some(Percent(value)), true, Some(now))
  }

  /**
    The effect of one response on a slave's entry. A register list is read
    at index 0, so an empty one raises and is handled as an exception.
   */
  function Step(e: Entry, r: Response, now: int): (e': Entry)
    ensures e'.online <==> r.Registers? && |r.registers| > 0
    ensures e'.online ==> e' == Refreshed(r.registers[0], now)
    ensures !e'.online ==> e' == e.(online := false)
  {
    match r
    case Registers(regs) => if |regs| > 0 then Refreshed(regs[0], now) else e.(online := false)
    case NoRegisters => e.(online := false)
    case Failure => e.(online := false)
  }

  /** The requests of one cycle: register 10, count 1, slaves 1 to 16 in order. */
  function CycleRequests(): seq<ReadRequest> {
    seq(SlaveCount, i => ReadRequest(RegisterAddress, RegisterCount, FirstSlave + i))
  }

  /**
    The table after the first `n` slaves of a cycle have been handled;
    `responses[i]` and `clock[i]` are the answer to, and the time of, the
    i-th request.
   */
  function AfterSteps(t: map<int, Entry>, responses: seq<Response>, clock: seq<int>, n: nat): map<int, Entry>
    requires n <= |responses| && n <= |clock|
  {
    if n == 0 then t
    else
      var p := AfterSteps(t, responses, clock, n - 1);
      var id := FirstSlave + n - 1;
      if id in p then p[id := Step(p[id], responses[n - 1], clock[n - 1])] else p
  }

  lemma {:induction false} AfterStepsEntry(t: map<int, Entry>, responses: seq<Response>, clock: seq<int>, n: nat, id: int)
    requires n <= |responses| && n <= |clock|
    ensures AfterSteps(t, responses, clock, n).Keys == t.Keys
    ensures id in t ==>
      AfterSteps(t, responses, clock, n)[id] ==
        if FirstSlave <= id < FirstSlave + n
        then Step(t[id], responses[id - FirstSlave], clock[id - FirstSlave])
        else t[id]
  {
    if n > 0 {
      AfterStepsEntry(t, responses, clock, n - 1, id);
    }
  }

  /** The table after one full cycle. */
  function AfterCycle(t: map<int, Entry>, responses: seq<Response>, clock: seq<int>): map<int, Entry>
    requires |responses| == SlaveCount && |clock| == SlaveCount
  {
    AfterSteps(t, responses, clock, SlaveCount)
  }

  /**
    A cycle keeps the key set, and each slave's new entry depends only on its
    old entry and its own response: handling one slave changes no other.
   */
  lemma CycleEntry(t: map<int, Entry>, responses: seq<Response>, clock: seq<int>, id: int)
    requires |responses| == SlaveCount && |clock| == SlaveCount
    requires t.Keys == SlaveIds()
    ensures AfterCycle(t, responses, clock).Keys == SlaveIds()
    ensures IsSlaveId(id) ==>
      AfterCycle(t, responses, clock)[id] == Step(t[id], responses[id - FirstSlave], clock[id - FirstSlave])
  {
    AfterStepsEntry(t, responses, clock, SlaveCount, id);
  }

  /** The table after a sequence of cycles. */
  function AfterCycles(t: map<int, Entry>, cycles: seq<seq<Response>>, clocks: seq<seq<int>>): map<int, Entry>
    requires |clocks| == |cycles|
    requires forall c :: 0 <= c < |cycles| ==> |cycles[c]| == SlaveCount && |clocks[c]| == SlaveCount
  {
    if cycles == [] then t
    else
      var n := |cycles| - 1;
      AfterCycle(AfterCycles(t, cycles[..n], clocks[..n]), cycles[n], clocks[n])
  }

  /** The request trace of `k` cycles. */
  function RepeatCycle(k: nat): seq<ReadRequest> {
    if k == 0 then [] else RepeatCycle(k - 1) + CycleRequests()
  }

  /** The global status table, updated in place by the polling loop. */
  class SiloTable {
    var data: map<int, Entry>

    ghost predicate Valid()
      reads this
    {
      data.Keys == SlaveIds()
    }

    constructor ()
      ensures Valid() && data == InitialTable()
    {
      data := InitialTable();
    }

    /** A response with registers: value, percent, online and last_ok are all set in one step. */
    method RecordValue(id: int, value: int, now: int)
      requires Valid() && IsSlaveId(id)
      modifies this
      ensures Valid()
      ensures data == old(data)[id := Entry(Some(value), Some(Percent(value)), true, Some(now))]
    {
      var percent := Percent(value);
      data := data[id := data[id].(value := Some(value))];
      data := data[id := data[id].(percent := Some(percent))];
      data := data[id := data[id].(online := true)];
      data := data[id := data[id].(lastOk := Some(now))];
    }

    /** A response without registers, or an exception: only the online flag is cleared. */
    method MarkOffline(id: int)
      requires Valid() && IsSlaveId(id)
      modifies this
      ensures Valid()
      ensures data == old(data)[id := old(data)[id].(online := false)]
    {
      data := data[id := data[id].(online := false)];
    }

    /** The handling of one slave's response inside the cycle. */
    method Handle(id: int, response: Response, now: int)
      requires Valid() && IsSlaveId(id)
      modifies this
      ensures Valid()
      ensures data == old(data)[id := Step(old(data)[id], response, now)]
    {
      match response
      case Registers(regs) =>
        if |regs| > 0 {
          RecordValue(id, regs[0], now);
        } else {
          MarkOffline(id);
        }
      case NoRegisters =>
        MarkOffline(id);
      case Failure =>
        MarkOffline(id);
    }

    /**
      One pass of the `for slave_id in range(1, 17)` loop. Returns the
      requests issued, in order.
     */
    method PollCycle(responses: seq<Response>, clock: seq<int>) returns (requests: seq<ReadRequest>)
      requires Valid()
      requires |responses| == SlaveCount && |clock| == SlaveCount
      modifies this
      ensures Valid()
      ensures data == AfterCycle(old(data), responses, clock)
      ensures requests == CycleRequests()
    {
      ghost var t := data;
      requests := [];
      var i := 0;
      while i < SlaveCount
        invariant 0 <= i <= SlaveCount
        invariant Valid()
        invariant data == AfterSteps(t, responses, clock, i)
        invariant requests == CycleRequests()[..i]
      {
        var id := FirstSlave + i;
        requests := requests + [ReadRequest(RegisterAddress, RegisterCount, id)];
        Handle(id, responses[i], clock[i]);
        i := i + 1;
      }
    }

    /**
      The polling loop, run for `|cycles|` cycles. When the serial port
      does not open, it returns at once and the table is unchanged.
     */
    method PollingLoop(connected: bool, cycles: seq<seq<Response>>, clocks: seq<seq<int>>)
      returns (requests: seq<ReadRequest>)
      requires Valid()
      requires |clocks| == |cycles|
      requires forall c :: 0 <= c < |cycles| ==> |cycles[c]| == SlaveCount && |clocks[c]| == SlaveCount
      modifies this
      ensures Valid()
      ensures !connected ==> data == old(data) && requests == []
      ensures connected ==> data == AfterCycles(old(data), cycles, clocks) && requests == RepeatCycle(|cycles|)
    {
      requests := [];
      if !connected {
        return;
      }
      ghost var t := data;
      var c := 0;
      while c < |cycles|
        invariant 0 <= c <= |cycles|
        invariant Valid()
        invariant data == AfterCycles(t, cycles[..c], clocks[..c])
        invariant requests == RepeatCycle(c)
      {
        var issued := PollCycle(cycles[c], clocks[c]);
        requests := requests + issued;
        assert cycles[..c + 1][..c] == cycles[..c];
        assert clocks[..c + 1][..c] == clocks[..c];
        c := c + 1;
      }
      assert cycles[..c] == cycles && clocks[..c] == clocks;
    }
  }

  /** Every read of a cycle asks for register 10, count 1, and the slave ids run 1..16 in ascending order. */
  lemma CycleRequestsInOrder()
    ensures |CycleRequests()| == SlaveCount
    ensures forall i :: 0 <= i < |CycleRequests()| ==>
      CycleRequests()[i].address == RegisterAddress && CycleRequests()[i].count == RegisterCount
    ensures forall i, j :: 0 <= i < j < |CycleRequests()| ==> CycleRequests()[i].deviceId < CycleRequests()[j].deviceId
    ensures forall id :: IsSlaveId(id) <==> exists i :: 0 <= i < |CycleRequests()| && CycleRequests()[i].deviceId == id
  {
    var r := CycleRequests();
    forall id | IsSlaveId(id)
      ensures exists i :: 0 <= i < |r| && r[i].deviceId == id
    {
      assert r[id - FirstSlave].deviceId == id;
    }
  }
}
