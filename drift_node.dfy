/**
 * The clock-drift node: a simulated drift accumulator advanced by a one-second timer, and a
 * five-second timer that reports the last measured drift to the coordinator once one exists.
 *
 * The statics of the C file are the fields of `DriftNode.Simulator`. The routing layer's
 * reachability and root-address answers and `clock_seconds()` are method parameters.
 */
module DriftNode {
  import opened CInt

  type uint8 = x: int | 0 <= x < 0x100

  /** The accumulator is held within this many ppm either side of zero. */
  const DriftLimit: int := 1000

  /** drift_packet_t: node id, drift in ppm and the sender's uptime in seconds. */
  datatype DriftPacket = DriftPacket(nodeId: uint16, clockDrift: int32, timestamp: uint32)

  /** The two clamping `if`s: the value limited to [-1000, 1000]. */
  function Clamp(x: int): (r: int)
    ensures -DriftLimit <= r <= DriftLimit
    ensures -DriftLimit <= x <= DriftLimit ==> r == x
    ensures x > DriftLimit ==> r == DriftLimit
    ensures x < -DriftLimit ==> r == -DriftLimit
  {
    if x > DriftLimit then DriftLimit else if x < -DriftLimit then -DriftLimit else x
  }

  /** The per-update variation `node_id * 10 - 50` (int arithmetic after promotion). */
  function StepOf(nodeId: uint16): (step: int)
    ensures -50 <= step <= 655_300
    ensures step < 0 <==> nodeId < 5
    ensures step > 0 <==> nodeId > 5
  {
    nodeId as int * 10 - 50
  }

  /** The `uint8_t` increment: 255 wraps to 0. */
  function NextCounter(c: uint8): (r: uint8)
    ensures c < 255 ==> r == c + 1
    ensures c == 255 ==> r == 0
  {
    (c + 1) % 0x100
  }

  /** Whether the tick that moves the counter off `c` updates the accumulator. */
  predicate UpdatesAfter(c: uint8)
  {
    NextCounter(c) % 3 == 0
  }

  /** Any three consecutive ticks include an update, across the wrap-around too. */
  lemma UpdateEveryThreeTicks(c: uint8)
    ensures UpdatesAfter(c) || UpdatesAfter(NextCounter(c)) || UpdatesAfter(NextCounter(NextCounter(c)))
  {
  }

  /**
   * Since 256 is not a multiple of 3, the wrap-around shifts the phase: the ticks that bring the
   * counter to 255 and then to 0 both update, one second apart.
   */
  lemma WrapUpdatesTwiceInARow()
    ensures UpdatesAfter(254) && UpdatesAfter(NextCounter(254))
  {
  }

  /** The accumulator after `k` updates from zero with a fixed per-update step. */
  function Accumulated(step: int, k: nat): (d: int)
    ensures -DriftLimit <= d <= DriftLimit
  {
    if k == 0 then 0 else Clamp(Accumulated(step, k - 1) + step)
  }

  /** Clamping an intermediate sum changes nothing when the next step has the same sign. */
  lemma ClampThenStep(prev: int, step: int)
    requires (prev >= 0 && step >= 0) || (prev <= 0 && step <= 0)
    ensures Clamp(Clamp(prev) + step) == Clamp(prev + step)
  {
  }

  /** One more update adds one more step to the product, without changing its sign. */
  lemma ProductStep(k: nat, step: int)
    requires k > 0
    ensures k * step == (k - 1) * step + step
    ensures step >= 0 ==> (k - 1) * step >= 0
    ensures step < 0 ==> (k - 1) * step <= 0
  {
  }

  /**
   * Because the step never changes sign, the clamped running sum saturates: after `k` updates it
   * is the unclamped sum `k * step` limited to [-1000, 1000].
   */
  lemma {:induction false} AccumulatedSaturates(step: int, k: nat)
    ensures Accumulated(step, k) == Clamp(k * step)
  {
    if k > 0 {
      AccumulatedSaturates(step, k - 1);
      ProductStep(k, step);
      ClampThenStep((k - 1) * step, step);
    }
  }

  /** A node whose id is above 5 drifts upward and reaches the limit after enough updates. */
  lemma PositiveStepReachesLimit(nodeId: uint16, k: nat)
    requires nodeId >= 5 && k * StepOf(nodeId) >= DriftLimit
    ensures Accumulated(StepOf(nodeId), k) == DriftLimit
  {
    AccumulatedSaturates(StepOf(nodeId), k);
  }

  class Simulator {
    const nodeId: uint16
    /** `static uint8_t drift_counter` inside extract_drift_from_tsch_log. */
    var driftCounter: uint8
    /** `static int32_t simulated_drift` inside extract_drift_from_tsch_log. */
    var simulatedDrift: int32
    var lastMeasuredDrift: int32
    /** `drift_available`, a uint8_t that is only ever set to 1. */
    var driftAvailable: bool
    /** Number of accumulator updates so far (not in the node; used to state the trajectory). */
    ghost var updates: nat
    /** The drift packets handed to simple_udp_sendto, oldest first. */
    var sent: seq<DriftPacket>

    /**
     * The last measured drift is the accumulator, which is the saturated sum of the updates so
     * far; before the first update nothing is available and both are zero.
     */
    ghost predicate Valid()
      reads this
    {
      && lastMeasuredDrift == simulatedDrift
      && simulatedDrift == Accumulated(StepOf(nodeId), updates)
      && (driftAvailable <==> updates > 0)
    }

    constructor(id: uint16)
      ensures Valid()
      ensures nodeId == id && driftCounter == 0 && simulatedDrift == 0
      ensures lastMeasuredDrift == 0 && !driftAvailable && updates == 0 && sent == []
    {
      nodeId := id;
      driftCounter, simulatedDrift, lastMeasuredDrift, driftAvailable := 0, 0, 0, false;
      updates := 0;
      sent := [];
    }

    /**
     * extract_drift_from_tsch_log: the counter advances (mod 256) on every call; on a multiple of
     * three the node's step is added, the sum clamped, published as the last measured drift, and
     * `drift_available` raised.
     */
    method ExtractDrift()
      requires Valid()
      modifies this
      ensures Valid()
      ensures driftCounter == NextCounter(old(driftCounter))
      ensures driftCounter % 3 == 0 ==>
                simulatedDrift == Clamp(old(simulatedDrift) + StepOf(nodeId))
                && lastMeasuredDrift == simulatedDrift && driftAvailable
                && updates == old(updates) + 1
      ensures driftCounter % 3 != 0 ==>
                simulatedDrift == old(simulatedDrift) && lastMeasuredDrift == old(lastMeasuredDrift)
                && driftAvailable == old(driftAvailable) && updates == old(updates)
      ensures old(driftAvailable) ==> driftAvailable
      ensures sent == old(sent)
    {
      driftCounter := (driftCounter + 1) % 0x100;
      if driftCounter % 3 == 0 {
        var sum := simulatedDrift + StepOf(nodeId);
        if sum > DriftLimit {
          sum := DriftLimit;
        }
        if sum < -DriftLimit {
          sum := -DriftLimit;
        }
        simulatedDrift := sum;
        lastMeasuredDrift := simulatedDrift;
        driftAvailable := true;
        updates := updates + 1;
      }
    }

    /**
     * send_drift_data: when the node is reachable and knows the root, one packet carrying the
     * node id, the last measured drift and the uptime `seconds` is sent.
     */
    method SendDriftData(reachable: bool, hasRoot: bool, seconds: uint32)
      modifies this
      ensures sent == old(sent)
                + (if reachable && hasRoot then [DriftPacket(nodeId, lastMeasuredDrift, seconds)]
                   else [])
      ensures driftCounter == old(driftCounter) && simulatedDrift == old(simulatedDrift)
      ensures lastMeasuredDrift == old(lastMeasuredDrift) && driftAvailable == old(driftAvailable)
      ensures updates == old(updates)
    {
      if reachable && hasRoot {
        var packet := DriftPacket(nodeId, lastMeasuredDrift, seconds);
        sent := sent + [packet];
      }
    }

    /**
     * One wake-up of the process: the one-second timer's branch runs first, then the drift
     * timer's, which sends only once a drift is available.
     */
    method OnTimers(periodicExpired: bool, driftExpired: bool,
                    reachable: bool, hasRoot: bool, seconds: uint32)
      requires Valid()
      modifies this
      ensures Valid()
      ensures periodicExpired ==> driftCounter == NextCounter(old(driftCounter))
      ensures periodicExpired ==> updates == old(updates) + (if UpdatesAfter(old(driftCounter)) then 1 else 0)
      ensures !periodicExpired ==> driftCounter == old(driftCounter) && updates == old(updates)
      ensures old(driftAvailable) ==> driftAvailable
      ensures sent == old(sent)
                + (if driftExpired && driftAvailable && reachable && hasRoot
                   then [DriftPacket(nodeId, Accumulated(StepOf(nodeId), updates), seconds)]
                   else [])
    {
      if periodicExpired {
        ExtractDrift();
      }
      if driftExpired {
        if driftAvailable {
          SendDriftData(reachable, hasRoot, seconds);
        }
      }
    }
  }
}
