/** The EventTime extension of the Fluentd forward protocol: two big-endian signed 32-bit words. */
module EventTime {
  import opened Bytes

  const NANOS := 1000000000

  type int32 = x: int | -0x8000_0000 <= x < 0x8000_0000

  function Quot(a: int, b: int): int
    requires b > 0
  {
    if a >= 0 then a / b else -(-a / b)
  }

  /** The remainder of a division that truncates toward zero. */
  function Rem(a: int, b: int): (r: int)
    requires b > 0
    ensures a == b * Quot(a, b) + r && -b < r < b
    ensures (a >= 0 ==> r >= 0) && (a <= 0 ==> r <= 0)
  {
    a - b * Quot(a, b)
  }

  /** A cast to 32 bits keeps the value modulo 2^32. */
  function ToInt32(x: int): (r: int32)
    ensures r == x <==> -0x8000_0000 <= x < 0x8000_0000
  {
    var m := x % WORD32;
    if m < 0x8000_0000 then m else m - WORD32
  }

  function Seconds(ns: int): int { Quot(ns, NANOS) }

  function Nanoseconds(ns: int): (r: int32) { Rem(ns, NANOS) }

  // ----- Big-endian words.

  function BE(b: bytes): nat {
    if b == [] then 0 else 256 * BE(b[..|b| - 1]) + b[|b| - 1]
  }

  /** The last n bytes a masked and shifted value leaves, most significant first. */
  function Low(v: int, n: nat): (b: bytes)
    ensures |b| == n
    decreases n
  {
    if n == 0 then [] else Low(v / 256, n - 1) + [v % 256]
  }

  lemma {:induction false} LowIsModular(v: int, n: nat)
    ensures BE(Low(v, n)) == v % Pow256(n)
    decreases n
  {
    if n == 0 {
    } else {
      LowIsModular(v / 256, n - 1);
      assert Low(v, n)[..n - 1] == Low(v / 256, n - 1);
      ModStep(v, Pow256(n - 1));
    }
  }

  /** What a reader of the extension makes of eight bytes. */
  function Decode(b: bytes): (int32, int32)
    requires |b| == 8
  {
    (ToInt32(BE(b[..4])), ToInt32(BE(b[4..])))
  }

  lemma WrapsBack(m: nat, v: int32)
    requires m == v % WORD32
    ensures ToInt32(m) == v
  {
    assert v == WORD32 * (v / WORD32) + m;
  }

  lemma LowBytesDecode(ts: bytes, s: int32, n: int32, four: nat)
    requires four == 4 && |ts| == 8 && ts[..4] == Low(s, four) && ts[4..] == Low(n, four)
    ensures Decode(ts) == (s, n)
  {
    WordSizes();
    LowIsModular(s, four);
    LowIsModular(n, four);
    WrapsBack(BE(ts[..4]), s);
    WrapsBack(BE(ts[4..]), n);
  }

  // ----- The program.

  /** The pair that is written: the clock's, when asked for the epoch itself. */
  function Effective(seconds: int32, nanoseconds: int32, now: int): (int32, int32) {
    if seconds == 0 && nanoseconds == 0 then (ToInt32(Seconds(now)), Nanoseconds(now)) else (seconds, nanoseconds)
  }

  method GetMsgpackEventTimeExt(secondsArg: int32, nanosecondsArg: int32, now: int) returns (ts: bytes)
    ensures |ts| == 8
    ensures Decode(ts) == Effective(secondsArg, nanosecondsArg, now)
  {
    var seconds, nanoseconds := secondsArg, nanosecondsArg;
    if seconds == 0 && nanoseconds == 0 {
      seconds := ToInt32(Seconds(now));
      nanoseconds := ToInt32(Nanoseconds(now));
    }
    ts := StoreWords(seconds, nanoseconds);
  }

  /** The loop that masks, stores and shifts both words. */
  method StoreWords(s: int32, n: int32) returns (ts: bytes)
    ensures |ts| == 8 && Decode(ts) == (s, n)
  {
    var seconds: int, nanoseconds: int := s, n;
    ghost var four: nat :| four == 4;
    ts := seq(8, _ => 0);
    var i := 3;
    while i >= 0
      invariant -1 <= i <= 3 && |ts| == 8
      invariant Low(s, four) == Low(seconds, i + 1) + ts[i + 1..4]
      invariant Low(n, four) == Low(nanoseconds, i + 1) + ts[i + 5..8]
    {
      ShiftOut(seconds, i + 1, ts[i + 1..4]);
      ShiftOut(nanoseconds, i + 1, ts[i + 5..8]);
      StoreBoth(ts, i, seconds % 256, nanoseconds % 256);
      ts := ts[i := seconds % 256][i + 4 := nanoseconds % 256];
      seconds := seconds / 256;
      nanoseconds := nanoseconds / 256;
      i := i - 1;
    }
    LowBytesDecode(ts, s, n, four);
  }

  lemma ShiftOut(v: int, k: nat, done: bytes)
    requires k > 0
    ensures Low(v, k) + done == Low(v / 256, k - 1) + ([v % 256] + done)
  {
  }

  lemma StoreBoth(ts: bytes, i: nat, x: byte, y: byte)
    requires i < 4 && |ts| == 8
    ensures ts[i := x][i + 4 := y][i..4] == [x] + ts[i + 1..4]
    ensures ts[i := x][i + 4 := y][i + 4..8] == [y] + ts[i + 5..8]
  {
  }

  method GetMsgPackEventTimeFromSystemTimestamp(timestamp: int, now: int) returns (ts: bytes)
    ensures |ts| == 8 && Decode(ts) == Written(timestamp, now)
  {
    ts := GetMsgpackEventTimeExt(ToInt32(Seconds(timestamp)), Nanoseconds(timestamp), now);
  }

  function Written(timestamp: int, now: int): (int32, int32) {
    Effective(ToInt32(Seconds(timestamp)), Nanoseconds(timestamp), now)
  }

  /** The nanoseconds since the epoch that a pair stands for. */
  function Total(pair: (int32, int32)): int { pair.0 * 1000000000 + pair.1 }

  predicate Fits(ns: int) { -0x8000_0000 <= Seconds(ns) < 0x8000_0000 }

  /** Any pair but (0, 0) comes back from its eight bytes, and only the clock can bring back (0, 0). */
  lemma PairRecoveredIff(seconds: int32, nanoseconds: int32, now: int)
    ensures Effective(seconds, nanoseconds, now) == (seconds, nanoseconds)
      <==> (seconds, nanoseconds) != (0, 0) || (ToInt32(Seconds(now)) == 0 && Nanoseconds(now) == 0)
  {
  }

  /** A timestamp other than the epoch is recovered if and only if its seconds fit in 32 bits. */
  lemma TimestampRecoveredIff(timestamp: int, now: int)
    requires timestamp != 0
    ensures Total(Written(timestamp, now)) == timestamp <==> Fits(timestamp)
  {
  }

  /** The failing case is real: the first second past 32 bits comes back 2^32 seconds early. */
  lemma FirstSecondTooFar(now: int)
    ensures var timestamp := 0x8000_0000 * NANOS;
      Total(Written(timestamp, now)) == timestamp - WORD32 * NANOS
  {
  }

  /** The epoch itself is written as the time of writing. */
  lemma EpochBecomesNow(now: int)
    ensures Total(Written(0, now)) == now <==> Fits(now)
  {
  }
}
