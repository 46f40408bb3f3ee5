/** The scheduled acquisitions of twinrx_freq_hopping: a command queue filled ahead, one burst
    received per hop, and the loop that gathers a burst. */
module HopQueue {
  import opened Arithmetic
  import opened Modular

  /** `X300_COMMAND_FIFO_DEPTH`. */
  const FIFO_DEPTH: nat := 16

  // ----- Receiving one burst

  /** What a receive call delivers, and whether the metadata carries an error. */
  datatype Reply<T> = Reply(samples: seq<T>, error: bool)

  /** The k-th call, asked for n samples. */
  type Stream<!T> = (nat, nat) -> Reply<T>

  /** A receive never delivers more than asked for. */
  ghost predicate Bounded<T>(recv: Stream<T>) {
    forall k, n: nat :: |recv(k, n).samples| <= n
  }

  /** How many samples are asked for: one packet, or what is missing when that is less. */
  function Request(chunk: nat, size: nat, have: nat): (n: nat)
    ensures n <= chunk && (have <= size ==> have + n <= size)
    ensures n == chunk || have + n == size || (n == 0 && have >= size)
  {
    if have < size then Min(chunk, size - have) else 0
  }

  /** What call k yields after `have` samples. */
  function Asked<T>(recv: Stream<T>, chunk: nat, size: nat, k: nat, have: nat): Reply<T> {
    recv(k, Request(chunk, size, have))
  }

  /** The samples gathered by the first k calls. */
  function Gathered<T>(recv: Stream<T>, chunk: nat, size: nat, k: nat): seq<T> {
    if k == 0 then [] else
      var before := Gathered(recv, chunk, size, k - 1);
      before + Asked(recv, chunk, size, k - 1, |before|).samples
  }

  ghost predicate Fails<T>(recv: Stream<T>, chunk: nat, size: nat, k: nat) {
    Asked(recv, chunk, size, k, |Gathered(recv, chunk, size, k)|).error
  }

  /** The delivered samples go behind what the buffer already holds. */
  method Deposit<T>(buffer: array<T>, at: nat, samples: seq<T>)
    requires at + |samples| <= buffer.Length
    modifies buffer
    ensures buffer[..at] == old(buffer[..at]) && buffer[..at + |samples|] == old(buffer[..at]) + samples
  {
    for i := 0 to |samples|
      invariant buffer[..at + i] == old(buffer[..at]) + samples[..i]
    {
      buffer[at + i] := samples[i];
      assert buffer[..at + i + 1] == buffer[..at + i] + [samples[i]];
    }
    assert samples[..|samples|] == samples;
    assert buffer[..at] == buffer[..at + |samples|][..at];
  }

  /** Sooner or later there is an error or there are enough samples; a stream that from some
      call on only delivers nothing, without an error, keeps the loop going for ever. */
  ghost predicate Ends<T>(recv: Stream<T>, chunk: nat, size: nat) {
    exists k: nat :: EndsAt(recv, chunk, size, k)
  }

  ghost predicate EndsAt<T>(recv: Stream<T>, chunk: nat, size: nat, k: nat) {
    Fails(recv, chunk, size, k) || |Gathered(recv, chunk, size, k)| >= size
  }

  lemma {:induction false} GatheredGrows<T>(recv: Stream<T>, chunk: nat, size: nat, i: nat, k: nat)
    requires i <= k
    ensures |Gathered(recv, chunk, size, i)| <= |Gathered(recv, chunk, size, k)|
  {
    if i < k { GatheredGrows(recv, chunk, size, i, k - 1); }
  }

  /** A stream that delivers something or an error whenever asked always ends. */
  lemma {:induction false} DeliveryEnds<T>(recv: Stream<T>, chunk: nat, size: nat, k: nat)
    requires chunk > 0 && forall i, n: nat :: n > 0 ==> recv(i, n).error || recv(i, n).samples != []
    ensures Ends(recv, chunk, size)
    decreases size - |Gathered(recv, chunk, size, k)|
  {
    if !EndsAt(recv, chunk, size, k) {
      DeliveryEnds(recv, chunk, size, k + 1);
    }
  }

  ghost predicate NoneFailed<T>(recv: Stream<T>, chunk: nat, size: nat, calls: nat) {
    forall k :: 0 <= k < calls ==> !Fails(recv, chunk, size, k)
  }

  /** Before the end there is always a next call, and it is the last one if it fails. */
  lemma NextCall<T>(recv: Stream<T>, chunk: nat, size: nat, end: nat, calls: nat, got: nat)
    requires EndsAt(recv, chunk, size, end) && NoneFailed(recv, chunk, size, calls)
    requires got == |Gathered(recv, chunk, size, calls)| < size
    ensures
      var r := recv(calls, Min(chunk, size - got));
      && (Fails(recv, chunk, size, calls) <==> r.error)
      && Gathered(recv, chunk, size, calls + 1) == Gathered(recv, chunk, size, calls) + r.samples
      && (!r.error ==> calls < end && NoneFailed(recv, chunk, size, calls + 1))
  {
    if calls >= end { GatheredGrows(recv, chunk, size, end, calls); }
  }

  /** One receive call into the buffer behind what is there. */
  method ReceiveOnce<T>(recv: Stream<T>, chunk: nat, buffer: array<T>, calls: nat, had: nat, ghost end: nat)
    returns (got: nat, error: bool)
    requires Bounded(recv) && EndsAt(recv, chunk, buffer.Length, end)
    requires NoneFailed(recv, chunk, buffer.Length, calls)
    requires had < buffer.Length && buffer[..had] == Gathered(recv, chunk, buffer.Length, calls)
    modifies buffer
    ensures error <==> Fails(recv, chunk, buffer.Length, calls)
    ensures error ==> got == had && buffer[..got] == Gathered(recv, chunk, buffer.Length, calls)
    ensures !error ==>
              && calls < end && NoneFailed(recv, chunk, buffer.Length, calls + 1)
              && got <= buffer.Length && buffer[..got] == Gathered(recv, chunk, buffer.Length, calls + 1)
  {
    assert |buffer[..had]| == had;
    NextCall(recv, chunk, buffer.Length, end, calls, had);
    var reply := recv(calls, Min(chunk, buffer.Length - had));
    Deposit(buffer, had, reply.samples);
    got, error := if reply.error then had else had + |reply.samples|, reply.error;
  }

  /** `twinrx_recv`: the buffer starts with what the calls before the first error delivered,
      in order, and is full unless there was an error. Nothing is written past its end. */
  method Receive<T>(recv: Stream<T>, chunk: nat, buffer: array<T>) returns (got: nat, calls: nat, error: bool)
    requires Bounded(recv) && Ends(recv, chunk, buffer.Length)
    modifies buffer
    ensures got <= buffer.Length && buffer[..got] == Gathered(recv, chunk, buffer.Length, calls)
    ensures NoneFailed(recv, chunk, buffer.Length, calls)
    ensures if error then got < buffer.Length && Fails(recv, chunk, buffer.Length, calls)
            else got == buffer.Length
  {
    ghost var end: nat :| EndsAt(recv, chunk, buffer.Length, end);
    got, calls, error := 0, 0, false;
    while got < buffer.Length
      invariant got <= buffer.Length && buffer[..got] == Gathered(recv, chunk, buffer.Length, calls)
      invariant NoneFailed(recv, chunk, buffer.Length, calls)
      decreases end - calls
    {
      got, error := ReceiveOnce(recv, chunk, buffer, calls, got, end);
      if error { return got, calls, true; }
      calls := calls + 1;
    }
    return got, calls, false;
  }

  // ----- The command queue

  /** A command for some time, or the burst of a hop. */
  datatype Event = Issue(at: real) | Burst(hop: nat)

  function Issues(es: seq<Event>): nat {
    if es == [] then 0 else Issues(es[..|es| - 1]) + if es[|es| - 1].Issue? then 1 else 0
  }

  function Bursts(es: seq<Event>): nat {
    if es == [] then 0 else Bursts(es[..|es| - 1]) + if es[|es| - 1].Burst? then 1 else 0
  }

  /** Commands waiting in the queue. */
  function Pending(es: seq<Event>): int {
    Issues(es) - Bursts(es)
  }

  /** The time of the n-th command: the interval added up n times. */
  function TimeOf(n: nat, interval: real): real {
    if n == 0 then 0.0 else TimeOf(n - 1, interval) + interval
  }

  lemma {:induction false} TimeIsProduct(n: nat, interval: real)
    ensures TimeOf(n, interval) == n as real * interval
  {
    if n > 0 {
      TimeIsProduct(n - 1, interval);
      var before := (n - 1) as real;
      assert n as real * interval == (before + 1.0) * interval == before * interval + interval;
    }
  }

  /** The event fits after these: no burst without a command waiting for it, no command into
      a full queue, the k-th command for k intervals, bursts going round the hops. */
  ghost predicate Fits(es: seq<Event>, e: Event, interval: real, hops: nat)
    requires hops > 0
  {
    match e
    case Issue(at) => Pending(es) < FIFO_DEPTH && at == TimeOf(Issues(es) + 1, interval)
    case Burst(hop) => Pending(es) > 0 && hop == Bursts(es) % hops
  }

  ghost predicate Orderly(es: seq<Event>, interval: real, hops: nat)
    requires hops > 0
  {
    forall k :: 0 <= k < |es| ==> Fits(es[..k], es[k], interval, hops)
  }

  lemma Append(es: seq<Event>, e: Event, interval: real, hops: nat)
    requires hops > 0 && Orderly(es, interval, hops) && Fits(es, e, interval, hops)
    ensures Orderly(es + [e], interval, hops)
    ensures Issues(es + [e]) == Issues(es) + if e.Issue? then 1 else 0
    ensures Bursts(es + [e]) == Bursts(es) + if e.Burst? then 1 else 0
  {
    assert (es + [e])[..|es|] == es;
    forall k | 0 <= k < |es| + 1
      ensures Fits((es + [e])[..k], (es + [e])[k], interval, hops)
    {
      assert k < |es| ==> (es + [e])[..k] == es[..k];
    }
  }

  /** The number of commands waiting never leaves 0 to the queue's depth. */
  lemma {:induction false} QueueBounded(es: seq<Event>, interval: real, hops: nat, k: nat)
    requires hops > 0 && Orderly(es, interval, hops) && k <= |es|
    ensures 0 <= Pending(es[..k]) <= 16
  {
    if k > 0 {
      QueueBounded(es, interval, hops, k - 1);
      assert es[..k][..k - 1] == es[..k - 1];
      assert Fits(es[..k - 1], es[k - 1], interval, hops);
    }
  }

  /** An orderly run so far, with the program's command count and time matching it. */
  ghost predicate Scheduled(es: seq<Event>, issued: nat, timeSpec: real, interval: real, hops: nat)
    requires hops > 0
  {
    Orderly(es, interval, hops) && Issues(es) == issued && timeSpec == TimeOf(issued, interval)
  }

  /** Schedules the next command, one interval on. */
  method IssueNext(es0: seq<Event>, issued0: nat, time0: real, interval: real, hops: nat)
    returns (es: seq<Event>, issued: nat, timeSpec: real)
    requires hops > 0 && Scheduled(es0, issued0, time0, interval, hops) && Pending(es0) < FIFO_DEPTH
    ensures Scheduled(es, issued, timeSpec, interval, hops)
    ensures issued == issued0 + 1 && Bursts(es) == Bursts(es0)
  {
    timeSpec := time0 + interval;
    Append(es0, Issue(timeSpec), interval, hops);
    es := es0 + [Issue(timeSpec)];
    issued := issued0 + 1;
  }

  lemma ReceiveNext(es: seq<Event>, issued: nat, timeSpec: real, interval: real, hops: nat, hop: nat)
    requires hops > 0 && Scheduled(es, issued, timeSpec, interval, hops)
    requires Pending(es) > 0 && hop == Bursts(es) % hops
    ensures
      var es' := es + [Burst(hop)];
      Scheduled(es', issued, timeSpec, interval, hops) && Bursts(es') == Bursts(es) + 1
  {
    Append(es, Burst(hop), interval, hops);
  }

  /** Fills the command queue before the first hop. */
  method Fill(hops: nat, interval: real) returns (es: seq<Event>, issued: nat, timeSpec: real)
    requires hops > 0
    ensures Scheduled(es, issued, timeSpec, interval, hops)
    ensures issued == Min(FIFO_DEPTH, hops) && Bursts(es) == 0
  {
    es, issued, timeSpec := [], 0, 0.0;
    while issued < Min(FIFO_DEPTH, hops)
      invariant Scheduled(es, issued, timeSpec, interval, hops)
      invariant issued <= Min(FIFO_DEPTH, hops) && Bursts(es) == 0
    {
      es, issued, timeSpec := IssueNext(es, issued, timeSpec, interval, hops);
    }
  }

  /** Commands issued by the time `taken` bursts are in. */
  function IssuedAfter(taken: nat, hops: nat, repeat: bool): nat {
    var ahead := Min(FIFO_DEPTH, hops) + taken;
    if repeat then ahead else Min(ahead, hops)
  }

  lemma HopOf(base: nat, hops: nat, i: nat)
    requires i < hops && base % hops == 0
    ensures (base + i) % hops == i
  {
    ModUnique(base + i, hops, base / hops, i);
  }

  /** One pass over all hops. */
  method Sweep(es0: seq<Event>, issued0: nat, time0: real, interval: real, hops: nat, repeat: bool)
    returns (es: seq<Event>, issued: nat, timeSpec: real)
    requires hops > 0 && Scheduled(es0, issued0, time0, interval, hops) && Bursts(es0) % hops == 0
    requires issued0 == IssuedAfter(Bursts(es0), hops, repeat) && (Bursts(es0) == 0 || repeat)
    ensures Scheduled(es, issued, timeSpec, interval, hops) && Bursts(es) == Bursts(es0) + hops
    ensures issued == IssuedAfter(Bursts(es), hops, repeat)
  {
    es, issued, timeSpec := es0, issued0, time0;
    for i := 0 to hops
      invariant Scheduled(es, issued, timeSpec, interval, hops) && Bursts(es) == Bursts(es0) + i
      invariant issued == IssuedAfter(Bursts(es), hops, repeat)
    {
      HopOf(Bursts(es0), hops, i);
      ReceiveNext(es, issued, timeSpec, interval, hops, i);
      es := es + [Burst(i)];
      if repeat || issued < hops {
        es, issued, timeSpec := IssueNext(es, issued, timeSpec, interval, hops);
      }
    }
  }

  lemma WholeSweeps(sweep: nat, hops: nat)
    requires hops > 0
    ensures (sweep * hops) % hops == 0 && (sweep + 1) * hops == sweep * hops + hops
  {
    ModUnique(sweep * hops, hops, sweep, 0);
  }

  /** The whole program, for one sweep, or for as many as `repeat` goes round. Without `repeat`
      every hop gets one command and one burst, and the queue ends empty; with it the queue is
      as full after each sweep as after the initial fill. */
  method HopFrequencies(hops: nat, interval: real, repeat: bool, sweeps: nat) returns (es: seq<Event>)
    requires hops > 0 && sweeps > 0
    ensures Orderly(es, interval, hops)
    ensures Bursts(es) == if repeat then sweeps * hops else hops
    ensures Pending(es) == if repeat then Min(FIFO_DEPTH, hops) else 0
  {
    var issued, timeSpec;
    es, issued, timeSpec := Fill(hops, interval);
    var sweep := 0;
    while true
      invariant sweep < sweeps && (sweep > 0 ==> repeat)
      invariant Scheduled(es, issued, timeSpec, interval, hops) && Bursts(es) == sweep * hops
      invariant issued == IssuedAfter(Bursts(es), hops, repeat)
      decreases sweeps - sweep
    {
      WholeSweeps(sweep, hops);
      es, issued, timeSpec := Sweep(es, issued, timeSpec, interval, hops, repeat);
      sweep := sweep + 1;
      if !repeat || sweep == sweeps { return; }
    }
  }
}
