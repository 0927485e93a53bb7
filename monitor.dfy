/**
 * The state `monitor_loop` in wifi.py keeps for each configured target:
 * the status record served by `/api/status`, the bounded history of probe
 * samples, and the `last_status` mirror.  Each locked block of the loop is
 * one atomic method; the endless `while True` with its sleep is reduced to
 * one pass over the targets (`Tick`), with the probe outcomes and the clock
 * readings supplied as parameters.
 */
module Monitor {
  import opened Options
  import opened Ping
  import opened Deque

  /** HISTORY_LENGTH: samples kept per target. */
  const HistoryLength: nat := 300

  datatype Status = Unknown | Up | Down

  /** The status as the JSON payload spells it. */
  function StatusText(s: Status): string {
    match s
    case Unknown => "Unknown"
    case Up => "UP"
    case Down => "DOWN"
  }

  /** The status text names the status: `"Unknown"`, `"UP"` and `"DOWN"` are pairwise distinct. */
  lemma StatusTextIdentifiesStatus(a: Status, b: Status)
    ensures StatusText(a) == StatusText(b) ==> a == b
  {
  }

  /** `{"ip", "status", "last", "latency"}` of one target. */
  datatype StatusRecord = StatusRecord(ip: string, status: Status, last: Option<string>, latency: Option<real>)

  /** One history entry `(ts, 1 if ok else 0, lat)`. */
  datatype Sample = Sample(ts: string, up: int, latency: Option<real>)

  /** The record a probe result gives, as `.update` writes it. */
  function RecordOf(ip: string, r: ProbeResult, ts: string): StatusRecord {
    StatusRecord(ip, if r.reachable then Up else Down, Some(ts), r.latency)
  }

  /** The history entry a probe result gives. */
  function SampleOf(r: ProbeResult, ts: string): Sample {
    Sample(ts, if r.reachable then 1 else 0, r.latency)
  }

  /**
   * What holds of one target between two locked blocks: the record keeps its
   * configured address, the mirror equals the record's status, a target is
   * `Unknown` exactly until its first sample, a `DOWN` record carries no
   * latency, and the newest sample is the one the record was built from.
   */
  ghost predicate Coherent(ip: string, rec: StatusRecord, hist: seq<Sample>, mirror: Status) {
    rec.ip == ip && mirror == rec.status
    && (rec.status == Unknown <==> hist == [])
    && (rec.status == Unknown ==> rec.last.None? && rec.latency.None?)
    && (rec.status == Down ==> rec.latency.None?)
    && (hist != [] ==> rec.last.Some?
                       && hist[|hist| - 1] == Sample(rec.last.value, if rec.status == Up then 1 else 0, rec.latency))
    && (forall k :: 0 <= k < |hist| ==> hist[k].up == 1 || (hist[k].up == 0 && hist[k].latency.None?))
  }

  /** Recording a probe result keeps a target coherent. */
  lemma RecordKeepsCoherent(ip: string, rec: StatusRecord, hist: seq<Sample>, mirror: Status, r: ProbeResult, ts: string)
    requires Coherent(ip, rec, hist, mirror) && |hist| <= HistoryLength
    ensures Coherent(ip, RecordOf(ip, r, ts), BoundedAppend(hist, SampleOf(r, ts), HistoryLength),
                     RecordOf(ip, r, ts).status)
  {
    var x := SampleOf(r, ts);
    var h := BoundedAppend(hist, x, HistoryLength);
    BoundedAppendFacts(hist, x, HistoryLength);
    forall k | 0 <= k < |h| ensures h[k].up == 1 || (h[k].up == 0 && h[k].latency.None?) {
      if k < |h| - 1 {
        if |hist| < HistoryLength {
          assert h[k] == h[..|hist|][k] == hist[k];
        } else {
          assert h[k] == h[..HistoryLength - 1][k] == hist[k + 1];
        }
      }
    }
  }

  /** `order` lists names of WIFI_TARGETS, each at most once. */
  ghost predicate Configured(targets: map<string, string>, order: seq<string>) {
    (forall i, j :: 0 <= i < j < |order| ==> order[i] != order[j])
    && (forall i :: 0 <= i < |order| ==> order[i] in targets)
  }

  /** The three dictionaries the loop writes: `status_store`, `history` and `last_status`. */
  datatype Tables = Tables(store: map<string, StatusRecord>, history: map<string, seq<Sample>>, mirror: map<string, Status>)

  /** The tables have an entry for each configured target, and every history is within bounds. */
  ghost predicate Bounded(targets: map<string, string>, t: Tables) {
    forall n :: n in targets ==> n in t.store && n in t.history && n in t.mirror && |t.history[n]| <= HistoryLength
  }

  /** Every configured target has a coherent record, history within bounds and mirror. */
  ghost predicate AllCoherent(targets: map<string, string>, t: Tables) {
    Bounded(targets, t)
    && (forall n {:trigger Coherent(targets[n], t.store[n], t.history[n], t.mirror[n])} :: n in targets ==>
          Coherent(targets[n], t.store[n], t.history[n], t.mirror[n]))
  }

  /**
   * The tables after the locked block for target `name`, whose address is
   * `ip`, recorded probe result `r` taken at `ts`: the record's fields are
   * overwritten, the sample is appended to the bounded history, the mirror
   * follows.  Every configured name has a history from start-up on; a name
   * without one would start from an empty history.
   */
  function Record(t: Tables, name: string, ip: string, r: ProbeResult, ts: string): Tables {
    var rec := RecordOf(ip, r, ts);
    var hist := if name in t.history then t.history[name] else [];
    Tables(t.store[name := rec],
           t.history[name := BoundedAppend(hist, SampleOf(r, ts), HistoryLength)],
           t.mirror[name := rec.status])
  }

  /** Recording one target's probe keeps every target coherent. */
  lemma RecordKeepsAllCoherent(targets: map<string, string>, t: Tables, name: string, r: ProbeResult, ts: string)
    requires AllCoherent(targets, t) && name in targets
    ensures AllCoherent(targets, Record(t, name, targets[name], r, ts))
  {
    RecordKeepsCoherent(targets[name], t.store[name], t.history[name], t.mirror[name], r, ts);
  }

  /** What `ping_latency` returns for each probe outcome of a pass. */
  function InterpretAll(outcomes: seq<ProbeOutcome>): (rs: seq<ProbeResult>)
    ensures |rs| == |outcomes|
    ensures forall k :: 0 <= k < |outcomes| ==> rs[k] == InterpretProbe(outcomes[k])
  {
    seq(|outcomes|, k requires 0 <= k < |outcomes| => InterpretProbe(outcomes[k]))
  }

  /**
   * The tables after one pass of the loop has recorded the results of the
   * first `n` names of `order`, in order.
   */
  ghost function RecordFirst(targets: map<string, string>, t: Tables, order: seq<string>,
                             results: seq<ProbeResult>, stamps: seq<string>, n: nat): Tables
    requires forall i :: 0 <= i < |order| ==> order[i] in targets
    requires n <= |order| && |results| == |order| && |stamps| == |order|
    decreases n
  {
    if n == 0 then t
    else Record(RecordFirst(targets, t, order, results, stamps, n - 1),
                order[n - 1], targets[order[n - 1]], results[n - 1], stamps[n - 1])
  }

  /**
   * In a pass over distinct names, the `j`-th name, once recorded, holds
   * the record and the newest sample of its own probe on top of the history
   * it had before the pass: a later target's probe never lands in it.
   */
  lemma {:induction false} RecordFirstProbed(targets: map<string, string>, t: Tables, order: seq<string>,
                                             results: seq<ProbeResult>, stamps: seq<string>, n: nat, j: nat)
    requires Bounded(targets, t) && Configured(targets, order)
    requires n <= |order| && |results| == |order| && |stamps| == |order| && j < n
    ensures var u, name := RecordFirst(targets, t, order, results, stamps, n), order[j];
            name in u.store && name in u.history && name in u.mirror
            && u.store[name] == RecordOf(targets[name], results[j], stamps[j])
            && u.mirror[name] == u.store[name].status
            && u.history[name] == BoundedAppend(t.history[name], SampleOf(results[j], stamps[j]), HistoryLength)
    decreases n
  {
    if j < n - 1 {
      RecordFirstProbed(targets, t, order, results, stamps, n - 1, j);
      assert order[j] != order[n - 1];
    } else {
      RecordFirstUntouched(targets, t, order, results, stamps, n - 1, j);
    }
  }

  /** A name the pass has not reached yet keeps its tables as they were before the pass. */
  lemma {:induction false} RecordFirstUntouched(targets: map<string, string>, t: Tables, order: seq<string>,
                                                results: seq<ProbeResult>, stamps: seq<string>, n: nat, j: nat)
    requires Bounded(targets, t) && Configured(targets, order)
    requires n <= j < |order| && |results| == |order| && |stamps| == |order|
    ensures var u, name := RecordFirst(targets, t, order, results, stamps, n), order[j];
            name in u.store && name in u.history && name in u.mirror
            && u.store[name] == t.store[name] && u.history[name] == t.history[name] && u.mirror[name] == t.mirror[name]
    decreases n
  {
    if n > 0 {
      RecordFirstUntouched(targets, t, order, results, stamps, n - 1, j);
      assert order[j] != order[n - 1];
    }
  }

  class WifiMonitor {
    /** WIFI_TARGETS: name to address. */
    const targets: map<string, string>
    /** The order in which WIFI_TARGETS iterates its names. */
    const order: seq<string>

    var statusStore: map<string, StatusRecord>
    /** The contents of each target's `deque(maxlen=HISTORY_LENGTH)`, oldest first. */
    var history: map<string, seq<Sample>>
    var lastStatus: map<string, Status>

    /** The three tables as one value. */
    function Snapshot(): Tables
      reads this
    {
      Tables(statusStore, history, lastStatus)
    }

    ghost predicate Valid()
      reads this
    {
      Configured(targets, order) && AllCoherent(targets, Snapshot())
    }

    /** Module start-up: every target `Unknown`, with an empty history. */
    constructor (targets: map<string, string>, order: seq<string>)
      requires forall i, j :: 0 <= i < j < |order| ==> order[i] != order[j]
      requires forall n :: n in targets <==> n in order
      ensures Valid()
      ensures this.targets == targets && this.order == order
      ensures forall n :: n in this.targets ==> n in this.order
      ensures forall n :: n in targets ==>
                statusStore[n] == StatusRecord(targets[n], Unknown, None, None)
                && lastStatus[n] == Unknown && history[n] == []
    {
      this.targets := targets;
      this.order := order;
      statusStore := map n | n in targets :: StatusRecord(targets[n], Unknown, None, None);
      history := map n | n in targets :: [];
      lastStatus := map n | n in targets :: Unknown;
    }

    /**
     * One iteration of the inner loop of `monitor_loop`, after the probe:
     * the locked update of the record and the history, then the mirror.
     */
    method RecordProbe(name: string, r: ProbeResult, ts: string)
      requires Valid() && name in targets
      modifies this
      ensures Valid()
      ensures Snapshot() == Record(old(Snapshot()), name, targets[name], r, ts)
    {
      RecordKeepsAllCoherent(targets, Snapshot(), name, r, ts);
      var rec := RecordOf(targets[name], r, ts);
      statusStore := statusStore[name := rec];
      history := history[name := BoundedAppend(history[name], SampleOf(r, ts), HistoryLength)];
      lastStatus := lastStatus[name := rec.status];
    }

    /**
     * One pass of `monitor_loop` over all targets, in configuration order,
     * each target probed once with its own outcome and timestamp.
     */
    method Tick(outcomes: seq<ProbeOutcome>, stamps: seq<string>)
      requires Valid() && |outcomes| == |order| && |stamps| == |order|
      modifies this
      ensures Valid()
      ensures Snapshot() == RecordFirst(targets, old(Snapshot()), order, InterpretAll(outcomes), stamps, |order|)
      ensures forall j :: 0 <= j < |order| ==>
                var r := InterpretProbe(outcomes[j]);
                statusStore[order[j]] == RecordOf(targets[order[j]], r, stamps[j])
                && lastStatus[order[j]] == statusStore[order[j]].status
                && history[order[j]] == BoundedAppend(old(history)[order[j]], SampleOf(r, stamps[j]), HistoryLength)
    {
      ghost var before := Snapshot();
      ghost var results := InterpretAll(outcomes);
      var i := 0;
      while i < |order|
        invariant 0 <= i <= |order|
        invariant Valid()
        invariant Snapshot() == RecordFirst(targets, before, order, results, stamps, i)
      {
        ghost var prev := Snapshot();
        var r := InterpretProbe(outcomes[i]);
        RecordProbe(order[i], r, stamps[i]);
        assert RecordFirst(targets, before, order, results, stamps, i + 1) == Record(prev, order[i], targets[order[i]], r, stamps[i]);
        i := i + 1;
      }
      forall j | 0 <= j < |order|
        ensures var r := InterpretProbe(outcomes[j]);
                statusStore[order[j]] == RecordOf(targets[order[j]], r, stamps[j])
                && lastStatus[order[j]] == statusStore[order[j]].status
                && history[order[j]] == BoundedAppend(before.history[order[j]], SampleOf(r, stamps[j]), HistoryLength)
      {
        RecordFirstProbed(targets, before, order, results, stamps, |order|, j);
      }
    }
  }
}
