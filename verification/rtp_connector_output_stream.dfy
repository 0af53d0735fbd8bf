/**
 * The outbound RTP packet engine of a media stream: a bounded drop-oldest
 * FIFO of raw buffers drained by one paced sender, two bounded free-lists
 * (raw buffer slots and framed packets), and a fail-fast fan-out of every
 * framed packet to a de-duplicated list of (address, port) targets.
 *
 * The socket, the clock and the rate tracker are outside the model: the
 * socket's validity is a parameter, the outcome of sending one packet to one
 * target is the oracle `delivers`, clock readings are parameters, and the
 * updates of the rate tracker, the warnings logged for dropped packets and
 * the durations the sender parks for are recorded in ghost logs.
 */
module RtpOutput {
  import opened Wrappers
  import opened JavaValues

  /** Capacity of the free-list of raw buffer slots (`new ArrayBlockingQueue<>(15)`). */
  const BufferPoolCapacity: nat := 15

  /** Queue capacity used when no (non-negative) capacity is configured. */
  const DefaultPacketQueueCapacity: nat := 1024

  /** Default capacity of the free-list of framed packets. */
  const DefaultPoolCapacity: nat := 100

  /** The largest port a socket address accepts. */
  const MaxPort: int := 65535

  /** A remote (address, port) pair; equality is that of address and port. */
  datatype Target = Target(address: seq<Byte>, port: int)

  /** The opaque context object a caller may attach to a write. */
  datatype Context = NullContext | ContextObject(id: nat)

  /** A raw slot of the queue: its byte array, the used length and the context. */
  datatype Buffer = Buffer(buf: seq<Byte>, len: int, context: Context)

  /** A framed packet: its byte array, offset, length and transport flags. */
  datatype RawPacket = RawPacket(buffer: seq<Byte>, offset: int, length: int, flags: int)

  /** A freshly allocated `byte[n]`. */
  function Zeros(n: nat): (r: seq<Byte>)
    ensures |r| == n
    ensures forall i :: 0 <= i < n ==> r[i] == 0
  {
    seq(n, _ => 0)
  }

  /** What `poll` leaves behind in a queue: the queue without its head, if any. */
  function Tail<T>(q: seq<T>): seq<T>
  {
    if q == [] then [] else q[1..]
  }

  /**
   * `offer` on a bounded queue: `x` is appended at the tail when there is
   * room and silently dropped otherwise.
   */
  function Offer<T>(pool: seq<T>, x: T, capacity: nat): (r: seq<T>)
    ensures |pool| <= capacity ==> |r| <= capacity
    ensures |pool| < capacity <==> r == pool + [x]
    ensures |pool| >= capacity ==> r == pool
  {
    if |pool| < capacity then pool + [x] else pool
  }

  /** Offering every element of `xs` in order, each exactly once. */
  function OfferAll<T>(pool: seq<T>, xs: seq<T>, capacity: nat): (r: seq<T>)
    ensures |pool| <= capacity ==> |r| <= capacity
    decreases |xs|
  {
    if xs == [] then pool else OfferAll(Offer(pool, xs[0], capacity), xs[1..], capacity)
  }

  lemma {:induction false} OfferAllAppend<T>(pool: seq<T>, xs: seq<T>, x: T, capacity: nat)
    ensures OfferAll(pool, xs + [x], capacity) == Offer(OfferAll(pool, xs, capacity), x, capacity)
    decreases |xs|
  {
    if xs == [] {
      assert xs + [x] == [x];
      assert [x][1..] == [];
    } else {
      assert (xs + [x])[0] == xs[0];
      assert (xs + [x])[1..] == xs[1..] + [x];
      OfferAllAppend(Offer(pool, xs[0], capacity), xs[1..], x, capacity);
    }
  }

  /**
   * The effective queue capacity: the configured value, else the value under
   * the legacy property name, else (or when negative) the default 1024.
   */
  function PacketQueueCapacity(configured: Option<int>, legacy: Option<int>): (r: int)
    ensures r >= 0
    ensures configured.Some? && configured.value >= 0 ==> r == configured.value
    ensures configured.Some? && configured.value < -1 ==> r == DefaultPacketQueueCapacity
    ensures configured.None? || configured.value == -1 ==>
      r == if legacy.Some? && legacy.value >= 0 then legacy.value else DefaultPacketQueueCapacity
  {
    var primary := if configured.Some? then configured.value else -1;
    var capacity := if primary == -1 then (if legacy.Some? then legacy.value else -1) else primary;
    if capacity >= 0 then capacity else DefaultPacketQueueCapacity
  }

  // ---------------------------------------------------------------------
  // Rate-limited logging of dropped packets

  /** Whether a warning is logged once `n` packets have been dropped. */
  predicate LogDroppedPacket(n: int)
  {
    n == 1 || (n <= 1000 && n % 100 == 0) || n % 1000 == 0
  }

  /** The number of warnings logged over the first `n` drops. */
  function WarningsUpTo(n: nat): nat
  {
    if n == 0 then 0 else WarningsUpTo(n - 1) + (if LogDroppedPacket(n) then 1 else 0)
  }

  /**
   * The schedule is logarithmic-then-linear: one warning for the first drop,
   * one per hundred drops up to a thousand, then one per thousand.
   */
  lemma {:induction false} WarningsUpToClosedForm(n: nat)
    ensures WarningsUpTo(n) == if n == 0 then 0 else if n <= 1000 then 1 + n / 100 else 10 + n / 1000
  {
    if n > 0 {
      WarningsUpToClosedForm(n - 1);
      DivStep(n, 100);
      DivStep(n, 1000);
      if n <= 1000 && n % 1000 == 0 {
        DivStep(n - 1, 1000);
        assert n == 1000;
      }
    }
  }

  /** Counting up by one raises the quotient by `k` exactly at multiples of `k`. */
  lemma DivStep(n: int, k: int)
    requires n >= 1 && k >= 1
    ensures n / k == (n - 1) / k + (if n % k == 0 then 1 else 0)
    ensures n < k ==> n / k == 0 && n % k == n
  {
    var q, r := (n - 1) / k, (n - 1) % k;
    if r == k - 1 {
      DivUnique(n, k, q + 1, 0);
    } else {
      DivUnique(n, k, q, r + 1);
    }
    if n < k {
      DivUnique(n, k, 0, n);
    }
  }

  /** Quotient and remainder are the only ones with a remainder in `[0, k)`. */
  lemma DivUnique(n: int, k: int, q: int, r: int)
    requires k >= 1 && n == q * k + r && 0 <= r < k
    ensures n / k == q && n % k == r
  {
    var d := q - n / k;
    assert d * k == n % k - r by {
      assert q * k - (n / k) * k == (q - n / k) * k;
    }
    MulBounds(d, k);
  }

  /** A non-zero multiple of `k` is at least `k` away from zero. */
  lemma MulBounds(d: int, k: int)
    requires k >= 1
    ensures d >= 1 ==> d * k >= k
    ensures d <= -1 ==> d * k <= -k
  {
    if d >= 1 {
      assert d * k == (d - 1) * k + k;
    } else if d <= -1 {
      assert d * k == -((-d) * k);
      assert (-d) * k == (-d - 1) * k + k;
    }
  }

  // ---------------------------------------------------------------------
  // Fail-fast fan-out

  /** Every target in `ts` accepts packet `p`. */
  predicate AllDeliver(p: RawPacket, ts: seq<Target>, delivers: (RawPacket, Target) -> bool)
  {
    forall i :: 0 <= i < |ts| ==> delivers(p, ts[i])
  }

  /** The targets that receive `p` when `ts` is walked in order up to the first failure. */
  function Delivered(p: RawPacket, ts: seq<Target>, delivers: (RawPacket, Target) -> bool): seq<Target>
    decreases |ts|
  {
    if ts == [] then []
    else if delivers(p, ts[0]) then [ts[0]] + Delivered(p, ts[1..], delivers)
    else []
  }

  /**
   * The fan-out is fail-fast: the receivers are a prefix of the targets, all
   * of which accepted the packet, and the target right after that prefix, if
   * any, is the first one that failed; every target receives it iff all accept.
   */
  lemma {:induction false} DeliveredIsFailFast(p: RawPacket, ts: seq<Target>, delivers: (RawPacket, Target) -> bool)
    ensures |Delivered(p, ts, delivers)| <= |ts|
    ensures Delivered(p, ts, delivers) == ts[..|Delivered(p, ts, delivers)|]
    ensures forall i :: 0 <= i < |Delivered(p, ts, delivers)| ==> delivers(p, ts[i])
    ensures |Delivered(p, ts, delivers)| < |ts| ==> !delivers(p, ts[|Delivered(p, ts, delivers)|])
    ensures Delivered(p, ts, delivers) == ts <==> AllDeliver(p, ts, delivers)
    decreases |ts|
  {
    if ts != [] && delivers(p, ts[0]) {
      DeliveredIsFailFast(p, ts[1..], delivers);
      var d := Delivered(p, ts[1..], delivers);
      assert Delivered(p, ts, delivers) == [ts[0]] + d;
      if AllDeliver(p, ts[1..], delivers) {
        assert AllDeliver(p, ts, delivers) by {
          forall i | 0 <= i < |ts| ensures delivers(p, ts[i]) {
            if i > 0 { assert ts[i] == ts[1..][i - 1]; }
          }
        }
      }
      if AllDeliver(p, ts, delivers) {
        assert AllDeliver(p, ts[1..], delivers) by {
          forall i | 0 <= i < |ts| - 1 ensures delivers(p, ts[1..][i]) {
            assert ts[1..][i] == ts[i + 1];
          }
        }
      }
    }
  }

  lemma DeliveredUpTo(p: RawPacket, ts: seq<Target>, delivers: (RawPacket, Target) -> bool, i: nat)
    requires i <= |ts|
    requires forall j :: 0 <= j < i ==> delivers(p, ts[j])
    requires i < |ts| ==> !delivers(p, ts[i])
    ensures Delivered(p, ts, delivers) == ts[..i]
  {
    DeliveredIsFailFast(p, ts, delivers);
  }

  /** The non-null packets of a batch, in order. */
  function NonNull(pkts: seq<Option<RawPacket>>): (r: seq<RawPacket>)
    ensures |r| <= |pkts|
    decreases |pkts|
  {
    if pkts == [] then []
    else (if pkts[0].Some? then [pkts[0].value] else []) + NonNull(pkts[1..])
  }

  lemma {:induction false} NonNullAppend(pkts: seq<Option<RawPacket>>, x: Option<RawPacket>)
    ensures NonNull(pkts + [x]) == NonNull(pkts) + (if x.Some? then [x.value] else [])
    decreases |pkts|
  {
    if pkts == [] {
      assert [x][1..] == [];
    } else {
      assert (pkts + [x])[0] == pkts[0];
      assert (pkts + [x])[1..] == pkts[1..] + [x];
      NonNullAppend(pkts[1..], x);
    }
  }

  /**
   * The number of leading packets of a batch that reach every target: the
   * walk stops at the first packet `send` fails on.
   */
  function SentCount(ps: seq<RawPacket>, socketValid: bool, ts: seq<Target>,
                     delivers: (RawPacket, Target) -> bool): (k: nat)
    ensures k <= |ps|
    decreases |ps|
  {
    if ps == [] then 0
    else if socketValid && AllDeliver(ps[0], ts, delivers) then 1 + SentCount(ps[1..], socketValid, ts, delivers)
    else 0
  }

  /**
   * `SentCount` is the length of the longest prefix of packets that all
   * reach every target, and the packet after it, if any, does not.
   */
  lemma {:induction false} SentCountIsFirstFailure(ps: seq<RawPacket>, socketValid: bool, ts: seq<Target>,
                                                    delivers: (RawPacket, Target) -> bool)
    ensures var k := SentCount(ps, socketValid, ts, delivers);
      && (forall i :: 0 <= i < k ==> socketValid && AllDeliver(ps[i], ts, delivers))
      && (k < |ps| ==> !(socketValid && AllDeliver(ps[k], ts, delivers)))
    decreases |ps|
  {
    if ps != [] && socketValid && AllDeliver(ps[0], ts, delivers) {
      SentCountIsFirstFailure(ps[1..], socketValid, ts, delivers);
      var k := SentCount(ps, socketValid, ts, delivers);
      forall i | 0 <= i < k ensures socketValid && AllDeliver(ps[i], ts, delivers) {
        if i > 0 { assert ps[i] == ps[1..][i - 1]; }
      }
      if k < |ps| { assert ps[k] == ps[1..][k - 1]; }
    }
  }

  lemma {:induction false} SentCountAppend(ps: seq<RawPacket>, p: RawPacket, socketValid: bool, ts: seq<Target>,
                                           delivers: (RawPacket, Target) -> bool)
    ensures SentCount(ps + [p], socketValid, ts, delivers)
         == if SentCount(ps, socketValid, ts, delivers) == |ps| && socketValid && AllDeliver(p, ts, delivers)
            then |ps| + 1 else SentCount(ps, socketValid, ts, delivers)
    decreases |ps|
  {
    if ps == [] {
      assert [p][1..] == [];
    } else {
      assert (ps + [p])[0] == ps[0];
      assert (ps + [p])[1..] == ps[1..] + [p];
      SentCountAppend(ps[1..], p, socketValid, ts, delivers);
    }
  }

  /** The number of packets handed to `send`: the sent ones plus the one that failed. */
  function Attempted(k: nat, n: nat): nat
  {
    if k < n then k + 1 else k
  }

  /** One rate-tracker update (`bytes`, `now`) per packet. */
  function RateUpdates(ps: seq<RawPacket>, now: int): (r: seq<(int, int)>)
    ensures |r| == |ps|
    ensures forall i :: 0 <= i < |ps| ==> r[i] == (ps[i].length, now)
  {
    seq(|ps|, i requires 0 <= i < |ps| => (ps[i].length, now))
  }

  /** The transmission-log entries of packets that passed the socket check. */
  function Transmissions(ps: seq<RawPacket>, ts: seq<Target>,
                         delivers: (RawPacket, Target) -> bool): (r: seq<(RawPacket, seq<Target>)>)
    ensures |r| == |ps|
    ensures forall i :: 0 <= i < |ps| ==> r[i] == (ps[i], Delivered(ps[i], ts, delivers))
  {
    seq(|ps|, i requires 0 <= i < |ps| => (ps[i], Delivered(ps[i], ts, delivers)))
  }

  /** One more packet: one more rate-tracker update at the end. */
  lemma RateUpdatesAppend(ps: seq<RawPacket>, p: RawPacket, now: int)
    ensures RateUpdates(ps + [p], now) == RateUpdates(ps, now) + [(p.length, now)]
  {
    assert RateUpdates(ps + [p], now)[|ps|] == (p.length, now);
  }

  /** One more packet: one more transmission-log entry at the end. */
  lemma TransmissionsAppend(ps: seq<RawPacket>, p: RawPacket, ts: seq<Target>,
                            delivers: (RawPacket, Target) -> bool)
    ensures Transmissions(ps + [p], ts, delivers) == Transmissions(ps, ts, delivers) + [(p, Delivered(p, ts, delivers))]
  {
    assert Transmissions(ps + [p], ts, delivers)[|ps|] == (p, Delivered(p, ts, delivers));
  }

  /** The pool, rate log, packet counter and transmission log a batch starts from. */
  datatype BatchStart = BatchStart(pool: seq<RawPacket>, rateLog: seq<(int, int)>, packets: int,
                                   log: seq<(RawPacket, seq<Target>)>)

  /** What sending a batch does to the pool, the rate tracker, the counter and the log. */
  datatype BatchOutcome = BatchOutcome(success: bool, pool: seq<RawPacket>, rate: seq<(int, int)>,
                                       packets: nat, log: seq<(RawPacket, seq<Target>)>)

  /**
   * Sending the packets `ps` in order from a pool `pool`: while every send
   * so far succeeded the next packet is sent (and offered back to the pool by
   * `send`); after the first failure each remaining packet is offered to the
   * pool unsent.
   */
  function SendBatch(ps: seq<RawPacket>, pool: seq<RawPacket>, capacity: nat, now: int, socketValid: bool,
                     ts: seq<Target>, delivers: (RawPacket, Target) -> bool): BatchOutcome
    decreases |ps|
  {
    if ps == [] then BatchOutcome(true, pool, [], 0, [])
    else
      var prev := SendBatch(ps[..|ps| - 1], pool, capacity, now, socketValid, ts, delivers);
      var p := ps[|ps| - 1];
      var pool' := Offer(prev.pool, p, capacity);
      if !prev.success then prev.(pool := pool')
      else
        var ok := socketValid && AllDeliver(p, ts, delivers);
        BatchOutcome(ok, pool', prev.rate + (if ok then [(p.length, now)] else []),
                     prev.packets + (if socketValid then 1 else 0),
                     prev.log + (if socketValid then [(p, Delivered(p, ts, delivers))] else []))
  }

  /** One more packet at the end of a batch: the last step of `SendBatch`. */
  lemma SendBatchSnoc(ps: seq<RawPacket>, p: RawPacket, pool: seq<RawPacket>, capacity: nat, now: int,
                      socketValid: bool, ts: seq<Target>, delivers: (RawPacket, Target) -> bool)
    ensures var prev := SendBatch(ps, pool, capacity, now, socketValid, ts, delivers);
            var o := SendBatch(ps + [p], pool, capacity, now, socketValid, ts, delivers);
            var ok := socketValid && AllDeliver(p, ts, delivers);
            && o.pool == Offer(prev.pool, p, capacity)
            && o.success == (prev.success && ok)
            && o.rate == prev.rate + (if prev.success && ok then [(p.length, now)] else [])
            && o.packets == prev.packets + (if prev.success && socketValid then 1 else 0)
            && o.log == prev.log + (if prev.success && socketValid then [(p, Delivered(p, ts, delivers))] else [])
  {
    assert (ps + [p])[..|ps|] == ps;
  }

  /** A batch succeeds iff every packet reached every target. */
  lemma {:induction false} SendBatchSucceedsIffAllSent(ps: seq<RawPacket>, pool: seq<RawPacket>, capacity: nat, now: int,
                                                       socketValid: bool, ts: seq<Target>, delivers: (RawPacket, Target) -> bool)
    ensures SendBatch(ps, pool, capacity, now, socketValid, ts, delivers).success
            <==> SentCount(ps, socketValid, ts, delivers) == |ps|
    decreases |ps|
  {
    if ps != [] {
      var init, p := ps[..|ps| - 1], ps[|ps| - 1];
      assert ps == init + [p];
      SendBatchSucceedsIffAllSent(init, pool, capacity, now, socketValid, ts, delivers);
      SentCountAppend(init, p, socketValid, ts, delivers);
      SendBatchSnoc(init, p, pool, capacity, now, socketValid, ts, delivers);
    }
  }

  /** Every packet of a batch is offered to the pool exactly once, in order. */
  lemma {:induction false} SendBatchPoolIsOfferAll(ps: seq<RawPacket>, pool: seq<RawPacket>, capacity: nat, now: int,
                                                   socketValid: bool, ts: seq<Target>, delivers: (RawPacket, Target) -> bool)
    ensures SendBatch(ps, pool, capacity, now, socketValid, ts, delivers).pool == OfferAll(pool, ps, capacity)
    decreases |ps|
  {
    if ps != [] {
      var init, p := ps[..|ps| - 1], ps[|ps| - 1];
      assert ps == init + [p];
      SendBatchPoolIsOfferAll(init, pool, capacity, now, socketValid, ts, delivers);
      OfferAllAppend(pool, init, p, capacity);
      SendBatchSnoc(init, p, pool, capacity, now, socketValid, ts, delivers);
    }
  }

  /** The rate tracker sees exactly the leading packets that were sent. */
  lemma {:induction false} SendBatchRate(ps: seq<RawPacket>, pool: seq<RawPacket>, capacity: nat, now: int,
                                         socketValid: bool, ts: seq<Target>, delivers: (RawPacket, Target) -> bool)
    ensures SendBatch(ps, pool, capacity, now, socketValid, ts, delivers).rate
         == RateUpdates(ps[..SentCount(ps, socketValid, ts, delivers)], now)
    decreases |ps|
  {
    if ps != [] {
      var init, p := ps[..|ps| - 1], ps[|ps| - 1];
      assert ps == init + [p];
      SendBatchRate(init, pool, capacity, now, socketValid, ts, delivers);
      SendBatchSucceedsIffAllSent(init, pool, capacity, now, socketValid, ts, delivers);
      SentCountAppend(init, p, socketValid, ts, delivers);
      SendBatchSnoc(init, p, pool, capacity, now, socketValid, ts, delivers);
      var k := SentCount(init, socketValid, ts, delivers);
      assert ps[..k] == init[..k];
      if k == |init| && socketValid && AllDeliver(p, ts, delivers) {
        assert init[..k] == init && ps[..k + 1] == init + [p];
        RateUpdatesAppend(init, p, now);
      }
    }
  }

  /**
   * The packet counter covers the sent packets plus the one that failed,
   * and nothing at all when the socket is invalid.
   */
  lemma {:induction false} SendBatchPackets(ps: seq<RawPacket>, pool: seq<RawPacket>, capacity: nat, now: int,
                                            socketValid: bool, ts: seq<Target>, delivers: (RawPacket, Target) -> bool)
    ensures SendBatch(ps, pool, capacity, now, socketValid, ts, delivers).packets
         == if socketValid then Attempted(SentCount(ps, socketValid, ts, delivers), |ps|) else 0
    decreases |ps|
  {
    if ps != [] {
      var init, p := ps[..|ps| - 1], ps[|ps| - 1];
      assert ps == init + [p];
      SendBatchPackets(init, pool, capacity, now, socketValid, ts, delivers);
      SendBatchSucceedsIffAllSent(init, pool, capacity, now, socketValid, ts, delivers);
      SentCountAppend(init, p, socketValid, ts, delivers);
      SendBatchSnoc(init, p, pool, capacity, now, socketValid, ts, delivers);
    }
  }

  /**
   * The transmission log holds the sent packets plus the one that failed,
   * each with the targets it reached, and nothing when the socket is invalid.
   */
  lemma {:induction false} SendBatchLog(ps: seq<RawPacket>, pool: seq<RawPacket>, capacity: nat, now: int,
                                        socketValid: bool, ts: seq<Target>, delivers: (RawPacket, Target) -> bool)
    ensures SendBatch(ps, pool, capacity, now, socketValid, ts, delivers).log
         == if socketValid then Transmissions(ps[..Attempted(SentCount(ps, socketValid, ts, delivers), |ps|)], ts, delivers)
            else []
    decreases |ps|
  {
    if ps != [] {
      var init, p := ps[..|ps| - 1], ps[|ps| - 1];
      assert ps == init + [p];
      SendBatchLog(init, pool, capacity, now, socketValid, ts, delivers);
      SendBatchSucceedsIffAllSent(init, pool, capacity, now, socketValid, ts, delivers);
      SentCountAppend(init, p, socketValid, ts, delivers);
      SendBatchSnoc(init, p, pool, capacity, now, socketValid, ts, delivers);
      var k := SentCount(init, socketValid, ts, delivers);
      if socketValid {
        if k == |init| {
          assert Attempted(SentCount(ps, socketValid, ts, delivers), |ps|) == |ps|;
          assert init[..Attempted(k, |init|)] == init && ps[..|ps|] == init + [p];
          TransmissionsAppend(init, p, ts, delivers);
        } else {
          assert SentCount(ps, socketValid, ts, delivers) == k;
          assert ps[..k + 1] == init[..k + 1];
        }
      }
    }
  }

  // ---------------------------------------------------------------------
  // Pacing

  /** The pacing fields of the queue: limit, interval length, start and counter. */
  datatype Pacing = Pacing(maxBuffers: int, perNanos: int, intervalStart: int, processed: int)

  predicate PacingActive(p: Pacing)
  {
    p.perNanos > 0 && p.maxBuffers > 0
  }

  /**
   * The pacing check made before a dequeued buffer is sent, as written: the
   * new pacing state and, when the counter has reached the limit within the
   * current interval, the duration passed to `parkNanos` (the time ELAPSED
   * since the interval started).
   */
  function PaceCheck(p: Pacing, now: int): (r: (Pacing, Option<int>))
    ensures !PacingActive(p) ==> r == (p, None)
    ensures PacingActive(p) && now - p.intervalStart >= p.perNanos ==>
      r == (p.(intervalStart := now, processed := 0), None)
    ensures PacingActive(p) && now - p.intervalStart < p.perNanos ==> r.0 == p
    ensures r.1.Some? <==> PacingActive(p) && now - p.intervalStart < p.perNanos && p.processed >= p.maxBuffers
    ensures r.1.Some? ==> r.1.value == now - p.intervalStart
  {
    if !PacingActive(p) then (p, None)
    else if now - p.intervalStart >= p.perNanos then (p.(intervalStart := now, processed := 0), None)
    else if p.processed >= p.maxBuffers then (p, Some(now - p.intervalStart))
    else (p, None)
  }

  /**
   * The pacing state after one buffer is checked and handed on, together
   * with the time it is handed on, when parking for `d` lasts exactly `d`.
   */
  datatype Paced = Paced(pacing: Pacing, at: int)

  function PaceAsWritten(p: Pacing, now: int): Paced
  {
    var (q, park) := PaceCheck(p, now);
    Paced(q.(processed := q.processed + 1), if park.Some? then now + park.value else now)
  }

  /**
   * The pacing invariant the design states: while pacing is active, the
   * buffer just handed on lies in the current interval, and that interval
   * has seen at most `maxBuffers` buffers.
   */
  predicate WithinLimit(s: Paced)
  {
    PacingActive(s.pacing) ==>
      && 0 <= s.pacing.processed <= s.pacing.maxBuffers
      && s.pacing.intervalStart <= s.at < s.pacing.intervalStart + s.pacing.perNanos
  }

  /**
   * As written, a backlog overruns the limit: with one buffer per 100 ns and
   * three buffers ready at time 0, the elapsed time is 0, the sender parks
   * for 0 ns, and all three are handed on at time 0 in the same interval.
   */
  lemma PacingAsWrittenOverruns()
    ensures var s1 := PaceAsWritten(Pacing(1, 100, -1000, 0), 0);
            var s2 := PaceAsWritten(s1.pacing, s1.at);
            var s3 := PaceAsWritten(s2.pacing, s2.at);
            && WithinLimit(s1)
            && s3.at == 0 && s3.pacing.intervalStart == 0 && s3.pacing.processed == 3
            && !WithinLimit(s3)
  {
  }

  /**
   * The evidently intended pacing: on reaching the limit within the
   * interval, park for the REMAINING time of the interval and begin the
   * next interval when it ends.
   */
  function PaceCorrected(p: Pacing, now: int): (r: Paced)
    ensures r.at >= now || (PacingActive(p) && r.at == p.intervalStart + p.perNanos)
  {
    if !PacingActive(p) then Paced(p.(processed := p.processed + 1), now)
    else if now - p.intervalStart >= p.perNanos then Paced(p.(intervalStart := now, processed := 1), now)
    else if p.processed >= p.maxBuffers then
      Paced(p.(intervalStart := p.intervalStart + p.perNanos, processed := 1), p.intervalStart + p.perNanos)
    else Paced(p.(processed := p.processed + 1), now)
  }

  /**
   * The corrected pacing keeps the limit: from any state whose counter is
   * within the limit and whose interval started no later than `now`, the
   * buffer is handed on no earlier than `now`, inside the current interval,
   * and that interval has seen at most `maxBuffers` buffers; so the
   * precondition holds again for the next buffer.
   */
  lemma PaceCorrectedKeepsLimit(p: Pacing, now: int)
    requires PacingActive(p)
    requires 0 <= p.processed <= p.maxBuffers && p.intervalStart <= now
    ensures var r := PaceCorrected(p, now);
            && WithinLimit(r) && r.at >= now
            && r.pacing.maxBuffers == p.maxBuffers && r.pacing.perNanos == p.perNanos
  {
  }

  // ---------------------------------------------------------------------
  // The queue of raw buffers and its sender

  /**
   * The queue a producer writes raw buffers into and the sender thread
   * drains: the bounded FIFO, the free-list of raw slots and the pacing
   * fields. `parks` logs the durations the sender parks for.
   */
  class SendQueue {
    const capacity: nat
    var buffers: seq<Buffer>
    var pool: seq<Buffer>
    var maxBuffers: int
    var perNanos: int
    var buffersProcessedInCurrentInterval: int
    var intervalStartTimeNanos: int
    ghost var parks: seq<int>

    ghost predicate Valid()
      reads this
    {
      && 1 <= capacity
      && |buffers| <= capacity
      && (forall i :: 0 <= i < |buffers| ==> 0 <= buffers[i].len <= |buffers[i].buf|)
      && |pool| <= BufferPoolCapacity
    }

    function PacingState(): Pacing
      reads this
    {
      Pacing(maxBuffers, perNanos, intervalStartTimeNanos, buffersProcessedInCurrentInterval)
    }

    constructor (capacity: nat)
      requires capacity >= 1
      ensures Valid() && this.capacity == capacity
      ensures buffers == [] && pool == [] && parks == []
      ensures PacingState() == Pacing(-1, -1, 0, 0)
    {
      this.capacity := capacity;
      buffers, pool := [], [];
      maxBuffers, perNanos := -1, -1;
      buffersProcessedInCurrentInterval, intervalStartTimeNanos := 0, 0;
      parks := [];
    }

    /**
     * Configures pacing: a non-positive limit disables it; otherwise an
     * interval under one millisecond is an IllegalArgumentException and
     * leaves the configuration unchanged.
     */
    method SetMaxPacketsPerMillis(maxPackets: int, perMillis: int) returns (outcome: Outcome<Exception>)
      requires IsInt(maxPackets) && IsLong(perMillis)
      modifies this`maxBuffers, this`perNanos
      ensures maxPackets < 1 ==> outcome == Pass && maxBuffers == -1 && perNanos == -1
      ensures maxPackets >= 1 && perMillis < 1 ==>
        outcome == Fail(IllegalArgument) && maxBuffers == old(maxBuffers) && perNanos == old(perNanos)
      ensures maxPackets >= 1 && perMillis >= 1 ==>
        outcome == Pass && maxBuffers == maxPackets && perNanos == ToLong(perMillis * 1_000_000)
    {
      if maxPackets < 1 {
        maxBuffers, perNanos := -1, -1;
      } else {
        if perMillis < 1 {
          return Fail(IllegalArgument);
        }
        maxBuffers := maxPackets;
        perNanos := ToLong(perMillis * 1_000_000);
      }
      outcome := Pass;
    }

    /**
     * A free slot whose array holds at least `len` bytes: the head of the
     * pool when there is one (its array replaced by a new one only when too
     * short), otherwise a new slot.
     */
    method GetBuffer(len: nat) returns (b: Buffer)
      requires Valid()
      modifies this`pool
      ensures Valid()
      ensures pool == Tail(old(pool))
      ensures |b.buf| >= len
      ensures old(pool) == [] ==> b == Buffer(Zeros(len), 0, NullContext)
      ensures old(pool) != [] && |old(pool)[0].buf| >= len ==> b == old(pool)[0]
      ensures old(pool) != [] && |old(pool)[0].buf| < len ==> b == old(pool)[0].(buf := Zeros(len))
    {
      if pool == [] {
        b := Buffer([], 0, NullContext);
      } else {
        b := pool[0];
        pool := pool[1..];
      }
      if |b.buf| < len {
        b := b.(buf := Zeros(len));
      }
    }

    /**
     * Appends `b` at the tail; when the queue is full its head is removed
     * first and offered back to the free-list.
     */
    method PushDroppingOldest(b: Buffer) returns (dropped: bool)
      requires Valid() && 0 <= b.len <= |b.buf|
      modifies this`buffers, this`pool
      ensures Valid()
      ensures dropped <==> |old(buffers)| >= capacity
      ensures buffers == (if dropped then old(buffers)[1..] else old(buffers)) + [b]
      ensures pool == if dropped then Offer(old(pool), old(buffers)[0], BufferPoolCapacity) else old(pool)
    {
      dropped := |buffers| >= capacity;
      if dropped {
        pool := Offer(pool, buffers[0], BufferPoolCapacity);
        buffers := buffers[1..];
      }
      buffers := buffers + [b];
    }

    /** The pacing check of the sender thread, parking logged in `parks`. */
    method Pace(now: int)
      modifies this`intervalStartTimeNanos, this`buffersProcessedInCurrentInterval, this`parks
      ensures PacingState() == PaceCheck(old(PacingState()), now).0
      ensures parks == old(parks) + (match PaceCheck(old(PacingState()), now).1
                                     case Some(d) => [d]
                                     case None => [])
    {
      if perNanos > 0 && maxBuffers > 0 {
        var elapsed := now - intervalStartTimeNanos;
        if elapsed >= perNanos {
          intervalStartTimeNanos := now;
          buffersProcessedInCurrentInterval := 0;
        } else if buffersProcessedInCurrentInterval >= maxBuffers {
          parks := parks + [elapsed];
        }
      }
    }
  }

  // ---------------------------------------------------------------------
  // The output stream

  class OutputStream {
    /** The queue and its sender thread; null when the send thread is not used. */
    const queue: SendQueue?
    /** Capacity of the free-list of framed packets (POOL_CAPACITY). */
    const poolCapacity: nat
    var enabled: bool
    var closed: bool
    var numberOfPackets: int
    var numDroppedPackets: int
    var rawPacketPool: seq<RawPacket>
    var targets: seq<Target>
    /** One entry per packet past the socket check: the packet and the targets that received it. */
    ghost var transmissions: seq<(RawPacket, seq<Target>)>
    /** The (bytes, time) updates of the rate tracker. */
    ghost var rateLog: seq<(int, int)>
    /** The drop counts at which a warning was logged. */
    ghost var dropWarnings: seq<int>

    ghost predicate Valid()
      reads this, queue
    {
      && 1 <= poolCapacity
      && |rawPacketPool| <= poolCapacity
      && NoDuplicates(targets)
      && (queue != null ==> queue.Valid())
    }

    static predicate NoDuplicates(ts: seq<Target>)
    {
      forall i, j :: 0 <= i < j < |ts| ==> ts[i] != ts[j]
    }

    /**
     * A stream in its initial state: enabled, open, no targets, empty pools,
     * and a queue of the given capacity exactly when the send thread is used.
     */
    constructor (useSendThread: bool, queueCapacity: nat, poolCapacity: nat)
      requires useSendThread ==> queueCapacity >= 1
      requires poolCapacity >= 1
      ensures Valid()
      ensures enabled && !closed && targets == [] && rawPacketPool == []
      ensures numberOfPackets == 0 && numDroppedPackets == 0
      ensures transmissions == [] && rateLog == [] && dropWarnings == []
      ensures this.poolCapacity == poolCapacity
      ensures useSendThread <==> queue != null
      ensures queue != null ==>
        && fresh(queue) && queue.capacity == queueCapacity
        && queue.buffers == [] && queue.pool == [] && queue.PacingState() == Pacing(-1, -1, 0, 0)
    {
      if useSendThread {
        queue := new SendQueue(queueCapacity);
      } else {
        queue := null;
      }
      this.poolCapacity := poolCapacity;
      enabled, closed := true, false;
      numberOfPackets, numDroppedPackets := 0, 0;
      rawPacketPool, targets := [], [];
      transmissions, rateLog, dropWarnings := [], [], [];
    }

    /**
     * Creates a stream from the configured capacities as the Java field
     * initialisers do: the bounded pool of framed packets, and the queue of
     * buffers when the send thread is used, reject a capacity below 1 with an
     * IllegalArgumentException; otherwise the stream is in its initial state.
     */
    static method Create(useSendThread: bool, queueCapacity: int, poolCapacity: int)
      returns (r: Result<OutputStream, Exception>)
      ensures r.Failure? <==> poolCapacity < 1 || (useSendThread && queueCapacity < 1)
      ensures r.Failure? ==> r.error == IllegalArgument
      ensures r.Success? ==>
        var s := r.value;
        && fresh(s) && s.Valid() && s.poolCapacity == poolCapacity
        && s.enabled && !s.closed && s.targets == [] && s.rawPacketPool == []
        && s.numberOfPackets == 0 && s.numDroppedPackets == 0
        && (useSendThread <==> s.queue != null)
        && (s.queue != null ==> fresh(s.queue) && s.queue.capacity == queueCapacity && s.queue.buffers == [])
    {
      if poolCapacity < 1 || (useSendThread && queueCapacity < 1) {
        return Failure(IllegalArgument);
      }
      var s := new OutputStream(useSendThread, if useSendThread then queueCapacity else 0, poolCapacity);
      r := Success(s);
    }

    /**
     * Adds a target unless an equal one is already present. A port outside
     * 0..65535 is refused as the socket address's IllegalArgumentException,
     * with the targets unchanged.
     */
    method AddTarget(t: Target) returns (outcome: Outcome<Exception>)
      requires Valid()
      modifies this`targets
      ensures Valid()
      ensures outcome == if 0 <= t.port <= MaxPort then Pass else Fail(IllegalArgument)
      ensures targets == if outcome.Fail? || t in old(targets) then old(targets) else old(targets) + [t]
    {
      if t.port < 0 || t.port > MaxPort {
        return Fail(IllegalArgument);
      }
      if t !in targets {
        targets := targets + [t];
      }
      return Pass;
    }

    /**
     * Removes the first target with the given address and port; reports
     * whether there was one.
     */
    method RemoveTarget(address: seq<Byte>, port: int) returns (removed: bool)
      requires Valid()
      modifies this`targets
      ensures Valid()
      ensures removed <==> Target(address, port) in old(targets)
      ensures !removed ==> targets == old(targets)
      ensures removed ==>
        exists i :: && 0 <= i < |old(targets)| && old(targets)[i] == Target(address, port)
                    && targets == old(targets)[..i] + old(targets)[i + 1..]
      ensures Target(address, port) !in targets
    {
      var i := 0;
      while i < |targets|
        invariant 0 <= i <= |targets|
        invariant forall j :: 0 <= j < i ==> targets[j] != Target(address, port)
      {
        if targets[i].address == address && targets[i].port == port {
          ghost var before := targets;
          targets := targets[..i] + targets[i + 1..];
          assert forall j :: 0 <= j < |targets| ==> targets[j] == (if j < i then before[j] else before[j + 1]);
          return true;
        }
        i := i + 1;
      }
      return false;
    }

    method RemoveTargets()
      requires Valid()
      modifies this`targets
      ensures Valid()
      ensures targets == []
    {
      targets := [];
    }

    /** Closes the stream once: marks it closed and drops every target; idempotent. */
    method Close()
      requires Valid()
      modifies this`closed, this`targets
      ensures Valid()
      ensures closed
      ensures targets == if old(closed) then old(targets) else []
    {
      if !closed {
        closed := true;
        RemoveTargets();
      }
    }

    method SetEnabled(enabled: bool)
      requires Valid()
      modifies this`enabled
      ensures Valid()
      ensures this.enabled == enabled
    {
      if this.enabled != enabled {
        this.enabled := enabled;
      }
    }

    /**
     * Configures pacing on the queue; reports whether there is a queue (the
     * call changes nothing without one). An invalid interval escapes as the
     * queue's IllegalArgumentException.
     */
    method SetMaxPacketsPerMillis(maxPackets: int, perMillis: int) returns (supported: bool, outcome: Outcome<Exception>)
      requires Valid() && IsInt(maxPackets) && IsLong(perMillis)
      modifies queue
      ensures Valid()
      ensures outcome.Pass? ==> (supported <==> queue != null)
      ensures queue == null ==> outcome == Pass
      ensures queue != null ==> outcome == (if maxPackets >= 1 && perMillis < 1 then Fail(IllegalArgument) else Pass)
      ensures queue != null && maxPackets < 1 ==> queue.maxBuffers == -1 && queue.perNanos == -1
      ensures queue != null && maxPackets >= 1 && perMillis >= 1 ==>
        queue.maxBuffers == maxPackets && queue.perNanos == ToLong(perMillis * 1_000_000)
      ensures queue != null && outcome.Fail? ==>
        queue.maxBuffers == old(queue.maxBuffers) && queue.perNanos == old(queue.perNanos)
      ensures queue != null ==>
        && queue.buffers == old(queue.buffers) && queue.pool == old(queue.pool)
        && queue.parks == old(queue.parks)
        && queue.intervalStartTimeNanos == old(queue.intervalStartTimeNanos)
        && queue.buffersProcessedInCurrentInterval == old(queue.buffersProcessedInCurrentInterval)
    {
      if queue != null {
        outcome := queue.SetMaxPacketsPerMillis(maxPackets, perMillis);
        if outcome.Fail? {
          supported := false;
          return;
        }
      } else {
        outcome := Pass;
      }
      supported := queue != null;
    }

    /**
     * Frames `buf[off..off+len)` as one packet at offset 0 with flags 0,
     * reusing the head of the packet pool and its array when that is long
     * enough, and a new array otherwise.
     */
    method Packetize(buf: seq<Byte>, off: int, len: int, context: Context) returns (pkts: seq<Option<RawPacket>>)
      requires Valid() && 0 <= off && 0 <= len && off + len <= |buf|
      modifies this`rawPacketPool
      ensures Valid()
      ensures rawPacketPool == Tail(old(rawPacketPool))
      ensures |pkts| == 1 && pkts[0].Some?
      ensures pkts[0].value.offset == 0 && pkts[0].value.length == len && pkts[0].value.flags == 0
      ensures |pkts[0].value.buffer| >= len && pkts[0].value.buffer[..len] == buf[off..off + len]
      ensures old(rawPacketPool) != [] && |old(rawPacketPool)[0].buffer| >= len ==>
        pkts[0].value.buffer == buf[off..off + len] + old(rawPacketPool)[0].buffer[len..]
      ensures old(rawPacketPool) == [] || |old(rawPacketPool)[0].buffer| < len ==>
        pkts[0].value.buffer == buf[off..off + len]
    {
      var pkt: RawPacket;
      var pktBuffer: seq<Byte>;
      if rawPacketPool == [] {
        pktBuffer := Zeros(len);
        pkt := RawPacket([], 0, 0, 0);
      } else {
        pkt := rawPacketPool[0];
        rawPacketPool := rawPacketPool[1..];
        pktBuffer := pkt.buffer;
      }
      if |pktBuffer| < len {
        pktBuffer := Zeros(len);
      }
      pktBuffer := buf[off..off + len] + pktBuffer[len..];
      pkt := RawPacket(pktBuffer, 0, len, 0);
      pkts := [Some(pkt)];
    }

    /**
     * Sends one packet to every target in order, stopping at the first
     * failure; on every path the packet is offered to the pool exactly once.
     * An invalid socket fails before any target is tried.
     */
    method Send(packet: RawPacket, socketValid: bool, delivers: (RawPacket, Target) -> bool) returns (ok: bool)
      requires Valid()
      modifies this`rawPacketPool, this`numberOfPackets, this`transmissions
      ensures Valid()
      ensures ok <==> socketValid && AllDeliver(packet, targets, delivers)
      ensures rawPacketPool == Offer(old(rawPacketPool), packet, poolCapacity)
      ensures numberOfPackets == old(numberOfPackets) + (if socketValid then 1 else 0)
      ensures transmissions == old(transmissions)
                               + (if socketValid then [(packet, Delivered(packet, targets, delivers))] else [])
    {
      if !socketValid {
        rawPacketPool := Offer(rawPacketPool, packet, poolCapacity);
        return false;
      }
      numberOfPackets := numberOfPackets + 1;
      var i := 0;
      while i < |targets|
        invariant 0 <= i <= |targets|
        invariant forall j :: 0 <= j < i ==> delivers(packet, targets[j])
      {
        if !delivers(packet, targets[i]) {
          rawPacketPool := Offer(rawPacketPool, packet, poolCapacity);
          DeliveredUpTo(packet, targets, delivers, i);
          transmissions := transmissions + [(packet, targets[..i])];
          return false;
        }
        i := i + 1;
      }
      rawPacketPool := Offer(rawPacketPool, packet, poolCapacity);
      DeliveredUpTo(packet, targets, delivers, i);
      assert targets[..i] == targets;
      transmissions := transmissions + [(packet, targets)];
      ok := true;
    }

    /**
     * One packet of a batch: sent (and counted by the rate tracker on
     * success) while the batch has not failed, offered to the pool unsent
     * after the first failure.
     */
    method BatchStep(pkt: RawPacket, success: bool, now: int, socketValid: bool,
                     delivers: (RawPacket, Target) -> bool) returns (success': bool)
      requires Valid()
      modifies this`rawPacketPool, this`numberOfPackets, this`transmissions, this`rateLog
      ensures Valid()
      ensures success' == (success && socketValid && AllDeliver(pkt, targets, delivers))
      ensures rawPacketPool == Offer(old(rawPacketPool), pkt, poolCapacity)
      ensures rateLog == old(rateLog) + (if success' then [(pkt.length, now)] else [])
      ensures numberOfPackets == old(numberOfPackets) + (if success && socketValid then 1 else 0)
      ensures transmissions == old(transmissions)
        + (if success && socketValid then [(pkt, Delivered(pkt, targets, delivers))] else [])
    {
      if success {
        success' := Send(pkt, socketValid, delivers);
        if success' {
          rateLog := rateLog + [(pkt.length, now)];
        }
      } else {
        rawPacketPool := Offer(rawPacketPool, pkt, poolCapacity);
        success' := false;
      }
    }

    /**
     * Sends a batch: false without effect when closed, true for a null
     * batch; otherwise the non-null packets are sent in order until the
     * first failure, as `SendBatch` describes (see `SendBatchSucceedsIffAllSent`,
     * `SendBatchPoolIsOfferAll`, `SendBatchRate`, `SendBatchPackets` and
     * `SendBatchLog`).
     */
    method WritePackets(pkts: Option<seq<Option<RawPacket>>>, now: int, socketValid: bool,
                        delivers: (RawPacket, Target) -> bool) returns (success: bool)
      requires Valid()
      modifies this`rawPacketPool, this`numberOfPackets, this`transmissions, this`rateLog
      ensures Valid()
      ensures closed ==> !success
      ensures closed || pkts.None? ==>
        && rawPacketPool == old(rawPacketPool) && numberOfPackets == old(numberOfPackets)
        && transmissions == old(transmissions) && rateLog == old(rateLog)
      ensures !closed && pkts.None? ==> success
      ensures !closed && pkts.Some? ==>
        var o := SendBatch(NonNull(pkts.value), old(rawPacketPool), poolCapacity, now, socketValid, targets, delivers);
        && success == o.success
        && rawPacketPool == o.pool
        && rateLog == old(rateLog) + o.rate
        && numberOfPackets == old(numberOfPackets) + o.packets
        && transmissions == old(transmissions) + o.log
    {
      if closed {
        return false;
      }
      if pkts.None? {
        return true;
      }
      success := SendAll(pkts.value, now, socketValid, delivers);
    }

    /** The loop of `write(pkts)` over a non-null batch of an open stream. */
    method SendAll(batch: seq<Option<RawPacket>>, now: int, socketValid: bool,
                   delivers: (RawPacket, Target) -> bool) returns (success: bool)
      requires Valid()
      modifies this`rawPacketPool, this`numberOfPackets, this`transmissions, this`rateLog
      ensures Valid()
      ensures var o := SendBatch(NonNull(batch), old(rawPacketPool), poolCapacity, now, socketValid, targets, delivers);
        && success == o.success
        && rawPacketPool == o.pool
        && rateLog == old(rateLog) + o.rate
        && numberOfPackets == old(numberOfPackets) + o.packets
        && transmissions == old(transmissions) + o.log
    {
      success := true;
      var i := 0;
      ghost var seen: seq<RawPacket> := [];
      ghost var start := BatchStart(old(rawPacketPool), old(rateLog), old(numberOfPackets), old(transmissions));
      while i < |batch|
        invariant 0 <= i <= |batch|
        invariant Valid()
        invariant seen == NonNull(batch[..i])
        invariant BatchSoFar(start, seen, success, now, socketValid, delivers)
      {
        assert batch[..i + 1] == batch[..i] + [batch[i]];
        NonNullAppend(batch[..i], batch[i]);
        success := BatchElement(batch[i], success, now, socketValid, delivers, start, seen);
        if batch[i].Some? {
          seen := seen + [batch[i].value];
        }
        i := i + 1;
      }
      assert batch[..i] == batch;
    }

    /**
     * The state after sending the packets `seen` of a batch begun in state
     * `start`: as `SendBatch` describes.
     */
    ghost predicate BatchSoFar(start: BatchStart, seen: seq<RawPacket>, success: bool, now: int, socketValid: bool,
                               delivers: (RawPacket, Target) -> bool)
      reads this
    {
      var o := SendBatch(seen, start.pool, poolCapacity, now, socketValid, targets, delivers);
      && success == o.success
      && rawPacketPool == o.pool
      && rateLog == start.rateLog + o.rate
      && numberOfPackets == start.packets + o.packets
      && transmissions == start.log + o.log
    }

    /** One element of a batch: a null is skipped, a packet goes through `BatchStep`. */
    method BatchElement(x: Option<RawPacket>, success: bool, now: int, socketValid: bool,
                        delivers: (RawPacket, Target) -> bool, ghost start: BatchStart, ghost seen: seq<RawPacket>)
      returns (success': bool)
      requires Valid() && BatchSoFar(start, seen, success, now, socketValid, delivers)
      modifies this`rawPacketPool, this`numberOfPackets, this`transmissions, this`rateLog
      ensures Valid()
      ensures BatchSoFar(start, seen + (if x.Some? then [x.value] else []), success', now, socketValid, delivers)
    {
      if x.Some? {
        SendBatchSnoc(seen, x.value, start.pool, poolCapacity, now, socketValid, targets, delivers);
        success' := BatchStep(x.value, success, now, socketValid, delivers);
      } else {
        success' := success;
        assert seen + [] == seen;
      }
    }

    /**
     * The state after `buf[off..off+len)` was framed as the single packet
     * `pkt` (taking the head of the packet pool) and that packet was sent,
     * from the pool, counter, transmission log and rate log given: once
     * closed nothing is sent and the taken slot is not given back; otherwise
     * the packet is counted and logged when the socket is valid, counted by
     * the rate tracker when it reached every target, and offered back to the
     * pool.
     */
    ghost predicate FramedAndSent(pool0: seq<RawPacket>, packets0: int, log0: seq<(RawPacket, seq<Target>)>,
                                  rate0: seq<(int, int)>, pkt: RawPacket, buf: seq<Byte>, off: int, len: int,
                                  now: int, socketValid: bool, delivers: (RawPacket, Target) -> bool)
      requires 0 <= off && 0 <= len && off + len <= |buf|
      reads this
    {
      && pkt.offset == 0 && pkt.length == len && pkt.flags == 0
      && |pkt.buffer| >= len && pkt.buffer[..len] == buf[off..off + len]
      && SentOne(Tail(pool0), packets0, log0, rate0, pkt, now, socketValid, delivers)
    }

    /**
     * The state after `write` of the one-packet batch `[pkt]`, from the pool,
     * counter, transmission log and rate log given.
     */
    ghost predicate SentOne(pool0: seq<RawPacket>, packets0: int, log0: seq<(RawPacket, seq<Target>)>,
                            rate0: seq<(int, int)>, pkt: RawPacket,
                            now: int, socketValid: bool, delivers: (RawPacket, Target) -> bool)
      reads this
    {
      var sent := !closed && socketValid;
      && rawPacketPool == (if closed then pool0 else Offer(pool0, pkt, poolCapacity))
      && numberOfPackets == packets0 + (if sent then 1 else 0)
      && transmissions == log0 + (if sent then [(pkt, Delivered(pkt, targets, delivers))] else [])
      && rateLog == rate0 + (if sent && AllDeliver(pkt, targets, delivers) then [(pkt.length, now)] else [])
    }

    /** `write` of a batch holding one packet. */
    method WriteOne(pkts: seq<Option<RawPacket>>, now: int, socketValid: bool,
                    delivers: (RawPacket, Target) -> bool) returns (success: bool)
      requires Valid() && |pkts| == 1 && pkts[0].Some?
      modifies this`rawPacketPool, this`numberOfPackets, this`transmissions, this`rateLog
      ensures Valid()
      ensures success <==> !closed && socketValid && AllDeliver(pkts[0].value, targets, delivers)
      ensures SentOne(old(rawPacketPool), old(numberOfPackets), old(transmissions), old(rateLog),
                      pkts[0].value, now, socketValid, delivers)
    {
      var pkt := pkts[0].value;
      assert NonNull(pkts) == [pkt] by {
        assert pkts[1..] == [];
      }
      assert [pkt][..0] == [];
      success := WritePackets(Some(pkts), now, socketValid, delivers);
    }

    /**
     * Frames and sends one write on the calling thread: `len` when the whole
     * batch was sent, -1 otherwise.
     */
    method SyncWrite(buf: seq<Byte>, off: int, len: int, context: Context, now: int, socketValid: bool,
                     delivers: (RawPacket, Target) -> bool) returns (result: int, ghost pkt: RawPacket)
      requires Valid() && 0 <= off && 0 <= len && off + len <= |buf|
      modifies this`rawPacketPool, this`numberOfPackets, this`transmissions, this`rateLog
      ensures Valid()
      ensures result == len || result == -1
      ensures result == len <==> !closed && socketValid && AllDeliver(pkt, targets, delivers)
      ensures FramedAndSent(old(rawPacketPool), old(numberOfPackets), old(transmissions), old(rateLog),
                            pkt, buf, off, len, now, socketValid, delivers)
    {
      var pkts := Packetize(buf, off, len, context);
      pkt := pkts[0].value;
      var ok := WriteOne(pkts, now, socketValid, delivers);
      result := if ok then len else -1;
    }

    /**
     * The queue, its free-list and the drop counter after a write of
     * `buf[off..off+len)` with `context` was accepted, from the state given:
     * once closed nothing changes; otherwise the copy is the new tail, in a
     * slot taken from the head of the free-list (keeping that slot's array
     * when long enough, else a new array of exactly `len` bytes), and when
     * the queue was full its head was dropped,
     * offered back to the free-list and counted.
     */
    ghost predicate Queued(buffers0: seq<Buffer>, pool0: seq<Buffer>, dropped0: int, warnings0: seq<int>,
                           buf: seq<Byte>, off: int, len: int, context: Context)
      requires queue != null && 1 <= queue.capacity
      requires !closed ==> 0 <= off && 0 <= len && off + len <= |buf|
      reads this, queue
    {
      if closed then
        && queue.buffers == buffers0 && queue.pool == pool0
        && numDroppedPackets == dropped0 && dropWarnings == warnings0
      else
        var full := |buffers0| >= queue.capacity;
        && |queue.buffers| == (if full then |buffers0| else |buffers0| + 1)
        && var last := queue.buffers[|queue.buffers| - 1];
        && queue.buffers[..|queue.buffers| - 1] == (if full then buffers0[1..] else buffers0)
        && last.len == len && last.context == context
        && |last.buf| >= len && last.buf[..len] == buf[off..off + len]
        && (pool0 != [] && |pool0[0].buf| >= len ==> |last.buf| == |pool0[0].buf|)
        && (pool0 == [] || |pool0[0].buf| < len ==> |last.buf| == len)
        && queue.pool == (if full then Offer(Tail(pool0), buffers0[0], BufferPoolCapacity) else Tail(pool0))
        && numDroppedPackets == (if full then ToInt(dropped0 + 1) else dropped0)
        && dropWarnings == warnings0 + (if full && LogDroppedPacket(numDroppedPackets) then [numDroppedPackets] else [])
    }

    /**
     * Adds a copy of `buf[off..off+len)` with its context at the tail of the
     * queue, in a slot taken from the free-list. When the queue is full, its
     * head is dropped first, offered back to the free-list and counted. Does
     * nothing once the stream is closed.
     */
    method QueueWrite(buf: seq<Byte>, off: int, len: int, context: Context)
      requires Valid() && queue != null
      requires !closed ==> 0 <= off && 0 <= len && off + len <= |buf|
      modifies this`numDroppedPackets, this`dropWarnings, queue`buffers, queue`pool
      ensures Valid()
      ensures Queued(old(queue.buffers), old(queue.pool), old(numDroppedPackets), old(dropWarnings), buf, off, len, context)
    {
      if closed {
        return;
      }
      var slot := queue.GetBuffer(len);
      var buffer := Buffer(buf[off..off + len] + slot.buf[len..], len, context);
      assert buffer.buf[..len] == buf[off..off + len];
      var dropped := queue.PushDroppingOldest(buffer);
      if dropped {
        CountDroppedPacket();
      }
    }

    /** Counts one dropped packet (wrapping as a Java int) and logs a warning on the schedule. */
    method CountDroppedPacket()
      modifies this`numDroppedPackets, this`dropWarnings
      ensures numDroppedPackets == ToInt(old(numDroppedPackets) + 1)
      ensures dropWarnings == old(dropWarnings) + (if LogDroppedPacket(numDroppedPackets) then [numDroppedPackets] else [])
    {
      numDroppedPackets := ToInt(numDroppedPackets + 1);
      if LogDroppedPacket(numDroppedPackets) {
        dropWarnings := dropWarnings + [numDroppedPackets];
      }
    }

    /**
     * Accepts a write: while enabled it is queued (send-thread mode) or
     * framed and sent on the calling thread; while disabled nothing changes,
     * whatever the offset and length. Always reports all `len` bytes as
     * written.
     */
    method Write(buf: seq<Byte>, off: int, len: int, context: Context, now: int, socketValid: bool,
                 delivers: (RawPacket, Target) -> bool) returns (written: int, ghost pkt: RawPacket)
      requires Valid() && (enabled ==> 0 <= off && 0 <= len && off + len <= |buf|)
      modifies this`numDroppedPackets, this`dropWarnings, this`rawPacketPool, this`numberOfPackets
      modifies this`transmissions, this`rateLog, queue
      ensures Valid()
      ensures written == len
      ensures queue != null ==> queue.PacingState() == old(queue.PacingState()) && queue.parks == old(queue.parks)
      ensures !enabled ==>
        && numDroppedPackets == old(numDroppedPackets) && rawPacketPool == old(rawPacketPool)
        && numberOfPackets == old(numberOfPackets) && transmissions == old(transmissions)
        && rateLog == old(rateLog) && dropWarnings == old(dropWarnings)
        && (queue != null ==> queue.buffers == old(queue.buffers) && queue.pool == old(queue.pool))
      ensures enabled && queue != null ==>
        && rawPacketPool == old(rawPacketPool) && numberOfPackets == old(numberOfPackets)
        && transmissions == old(transmissions) && rateLog == old(rateLog)
        && Queued(old(queue.buffers), old(queue.pool), old(numDroppedPackets), old(dropWarnings), buf, off, len, context)
      ensures enabled && queue == null ==>
        && numDroppedPackets == old(numDroppedPackets) && dropWarnings == old(dropWarnings)
        && FramedAndSent(old(rawPacketPool), old(numberOfPackets), old(transmissions), old(rateLog),
                         pkt, buf, off, len, now, socketValid, delivers)
    {
      pkt := RawPacket([], 0, 0, 0);  // no packet is framed unless sent on this thread
      if enabled {
        if queue != null {
          QueueWrite(buf, off, len, context);
        } else {
          var _, p := SyncWrite(buf, off, len, context, now, socketValid, delivers);
          pkt := p;
        }
      }
      written := len;
    }

    /**
     * The sender thread's work on a dequeued buffer of an open stream: frame
     * it, offer the slot back to the free-list, run the pacing check, send
     * the packet and count the buffer in the current interval.
     */
    method FrameAndSend(buffer: Buffer, nowNanos: int, nowMillis: int, socketValid: bool,
                        delivers: (RawPacket, Target) -> bool) returns (ghost pkt: RawPacket)
      requires Valid() && queue != null && !closed && 0 <= buffer.len <= |buffer.buf|
      modifies this`rawPacketPool, this`numberOfPackets, this`transmissions, this`rateLog
      modifies queue`pool, queue`intervalStartTimeNanos, queue`buffersProcessedInCurrentInterval, queue`parks
      ensures Valid()
      ensures queue.buffers == old(queue.buffers)
      ensures queue.pool == Offer(old(queue.pool), buffer, BufferPoolCapacity)
      ensures var paced := PaceCheck(old(queue.PacingState()), nowNanos);
        && queue.PacingState() == paced.0.(processed := paced.0.processed + 1)
        && queue.parks == old(queue.parks) + (match paced.1 case Some(d) => [d] case None => [])
      ensures FramedAndSent(old(rawPacketPool), old(numberOfPackets), old(transmissions), old(rateLog),
                            pkt, buffer.buf, 0, buffer.len, nowMillis, socketValid, delivers)
    {
      var pkts := Packetize(buffer.buf, 0, buffer.len, buffer.context);
      pkt := pkts[0].value;
      queue.pool := Offer(queue.pool, buffer, BufferPoolCapacity);
      queue.Pace(nowNanos);
      var _ := WriteOne(pkts, nowMillis, socketValid, delivers);
      queue.buffersProcessedInCurrentInterval := queue.buffersProcessedInCurrentInterval + 1;
    }

    /**
     * One iteration of the sender thread. Once closed, the thread clears the
     * queue and stops. On an empty queue the poll times out and nothing
     * changes. Otherwise the head buffer is dequeued and offered back to the
     * free-list whatever happens; if framing throws the buffer is skipped;
     * else the pacing check runs, the packets are sent, and the interval
     * counter rises by exactly one, however many packets framing produced.
     */
    method SendThreadStep(nowNanos: int, nowMillis: int, socketValid: bool,
                          delivers: (RawPacket, Target) -> bool, framingThrows: bool)
      returns (running: bool, ghost pkt: RawPacket)
      requires Valid() && queue != null
      modifies this`rawPacketPool, this`numberOfPackets, this`transmissions, this`rateLog
      modifies queue`buffers, queue`pool, queue`intervalStartTimeNanos, queue`buffersProcessedInCurrentInterval, queue`parks
      ensures Valid()
      ensures running == !closed
      ensures closed || old(queue.buffers) == [] || framingThrows ==>
        && rawPacketPool == old(rawPacketPool) && numberOfPackets == old(numberOfPackets)
        && transmissions == old(transmissions) && rateLog == old(rateLog)
        && queue.PacingState() == old(queue.PacingState()) && queue.parks == old(queue.parks)
      ensures closed ==> queue.buffers == [] && queue.pool == old(queue.pool)
      ensures !closed && old(queue.buffers) == [] ==> queue.buffers == [] && queue.pool == old(queue.pool)
      ensures !closed && old(queue.buffers) != [] ==>
        && queue.buffers == old(queue.buffers)[1..]
        && queue.pool == Offer(old(queue.pool), old(queue.buffers)[0], BufferPoolCapacity)
      ensures !closed && old(queue.buffers) != [] && !framingThrows ==>
        var paced := PaceCheck(old(queue.PacingState()), nowNanos);
        && queue.PacingState() == paced.0.(processed := paced.0.processed + 1)
        && queue.parks == old(queue.parks) + (match paced.1 case Some(d) => [d] case None => [])
        && FramedAndSent(old(rawPacketPool), old(numberOfPackets), old(transmissions), old(rateLog),
                         pkt, old(queue.buffers)[0].buf, 0, old(queue.buffers)[0].len, nowMillis, socketValid, delivers)
    {
      pkt := RawPacket([], 0, 0, 0);  // no packet is framed unless a buffer is sent
      if closed {
        queue.buffers := [];
        running := false;
        return;
      }
      running := true;
      if queue.buffers == [] {
        return;
      }
      var buffer := queue.buffers[0];
      queue.buffers := queue.buffers[1..];
      if framingThrows {
        queue.pool := Offer(queue.pool, buffer, BufferPoolCapacity);
        return;
      }
      pkt := FrameAndSend(buffer, nowNanos, nowMillis, socketValid, delivers);
    }
  }
}
