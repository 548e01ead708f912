/**
 * The sliding-window rate limiter `checkRateLimit` of app/bootstrap.php,
 * as a pure transition over the `rate_limits` table. Timestamps are
 * abstract integers (seconds); the table is the sequence of its rows.
 */
module RateLimit {

  /** One row of `rate_limits`: the limited key and when the attempt was recorded. */
  datatype Entry = Entry(key: string, createdAt: int)

  /** The outcome of one call: whether the attempt is allowed, and the table afterwards. */
  datatype Decision = Decision(allowed: bool, table: seq<Entry>)

  /** `DELETE FROM rate_limits WHERE created_at < cutoff`, for every key. */
  function Prune(t: seq<Entry>, cutoff: int): (r: seq<Entry>)
    ensures |r| <= |t|
    ensures forall i :: 0 <= i < |r| ==> r[i].createdAt >= cutoff
    decreases |t|
  {
    if |t| == 0 then []
    else
      var rest := Prune(t[1..], cutoff);
      if t[0].createdAt < cutoff then rest else [t[0]] + rest
  }

  /** Pruning keeps exactly the rows recorded at or after the cutoff. */
  lemma {:induction false} PruneContents(t: seq<Entry>, cutoff: int)
    ensures forall e :: e in Prune(t, cutoff) <==> e in t && e.createdAt >= cutoff
    decreases |t|
  {
    if |t| > 0 {
      PruneContents(t[1..], cutoff);
      assert forall e :: e in t <==> e == t[0] || e in t[1..];
    }
  }

  /** `SELECT COUNT(*) FROM rate_limits WHERE key = :key AND created_at > :cutoff`. */
  function CountRecent(t: seq<Entry>, key: string, cutoff: int): (n: nat)
    ensures n <= |t|
    decreases |t|
  {
    if |t| == 0 then 0
    else (if t[0].key == key && t[0].createdAt > cutoff then 1 else 0) + CountRecent(t[1..], key, cutoff)
  }

  /**
   * `checkRateLimit($key, $limit, $window)` at time `now`. `storeFails`
   * stands for any exception the database raises inside the transaction.
   * Old rows are pruned, recent rows for the key are counted, and at the
   * limit the transaction is rolled back; otherwise one row is recorded.
   */
  function CheckRateLimit(t: seq<Entry>, key: string, limit: int, window: int, now: int, storeFails: bool)
    : (d: Decision)
    ensures d.allowed <==> !storeFails && CountRecent(t, key, now - window) < limit
    ensures !d.allowed ==> d.table == t
    ensures d.allowed ==> d.table == Prune(t, now - window) + [Entry(key, now)]
  {
    var cutoff := now - window;
    var pruned := Prune(t, cutoff);
    PruneKeepsRecent(t, key, cutoff, cutoff);
    if storeFails then Decision(false, t)
    else if CountRecent(pruned, key, cutoff) >= limit then Decision(false, t)
    else Decision(true, pruned + [Entry(key, now)])
  }

  // ---------------------------------------------------------------------------
  // Counting facts
  // ---------------------------------------------------------------------------

  /** Pruning at `cutoff` removes no row counted at `later >= cutoff - 1`. */
  lemma {:induction false} PruneKeepsRecent(t: seq<Entry>, key: string, cutoff: int, later: int)
    requires later >= cutoff - 1
    ensures CountRecent(Prune(t, cutoff), key, later) == CountRecent(t, key, later)
    decreases |t|
  {
    if |t| > 0 {
      PruneKeepsRecent(t[1..], key, cutoff, later);
      var rest := Prune(t[1..], cutoff);
      if t[0].createdAt >= cutoff {
        assert Prune(t, cutoff) == [t[0]] + rest;
        assert ([t[0]] + rest)[1..] == rest;
      }
    }
  }

  /** Counting from a later cutoff never finds more rows. */
  lemma {:induction false} CountAntitone(t: seq<Entry>, key: string, cutoff: int, later: int)
    requires cutoff <= later
    ensures CountRecent(t, key, later) <= CountRecent(t, key, cutoff)
    decreases |t|
  {
    if |t| > 0 {
      CountAntitone(t[1..], key, cutoff, later);
    }
  }

  /** Appending a row adds one to the count exactly when the row is counted. */
  lemma {:induction false} CountAppend(t: seq<Entry>, e: Entry, key: string, cutoff: int)
    ensures CountRecent(t + [e], key, cutoff)
         == CountRecent(t, key, cutoff) + (if e.key == key && e.createdAt > cutoff then 1 else 0)
    decreases |t|
  {
    if |t| == 0 {
      assert t + [e] == [e];
    } else {
      assert (t + [e])[1..] == t[1..] + [e];
      CountAppend(t[1..], e, key, cutoff);
    }
  }

  // ---------------------------------------------------------------------------
  // Properties of checkRateLimit
  // ---------------------------------------------------------------------------

  /**
   * A row exactly at the cutoff survives the prune (`<` is strict) yet is not
   * counted (`>` is strict).
   */
  lemma CutoffRowKeptButNotCounted(key: string, cutoff: int)
    ensures Prune([Entry(key, cutoff)], cutoff) == [Entry(key, cutoff)]
    ensures CountRecent([Entry(key, cutoff)], key, cutoff) == 0
  {
  }

  /**
   * The window invariant: if at most `limit` attempts for the key are
   * counted before a call, at most `limit` are counted after it, at that
   * call's time and at every later time.
   */
  lemma WindowBoundPreserved(t: seq<Entry>, key: string, limit: int, window: int, now: int,
                             storeFails: bool, later: int)
    requires CountRecent(t, key, now - window) <= limit
    requires now <= later
    ensures CountRecent(CheckRateLimit(t, key, limit, window, now, storeFails).table, key, later - window) <= limit
  {
    var cutoff := now - window;
    var d := CheckRateLimit(t, key, limit, window, now, storeFails);
    if d.allowed {
      var pruned := Prune(t, cutoff);
      assert d.table == pruned + [Entry(key, now)];
      CountAppend(pruned, Entry(key, now), key, cutoff);
      PruneKeepsRecent(t, key, cutoff, cutoff);
      assert CountRecent(t, key, cutoff) < limit;
      assert CountRecent(d.table, key, cutoff) <= CountRecent(pruned, key, cutoff) + 1;
      CountAntitone(d.table, key, cutoff, later - window);
    } else {
      assert d.table == t;
      CountAntitone(t, key, cutoff, later - window);
    }
  }

  /**
   * A call for one key leaves every other key's count unchanged, for any
   * cutoff from the call's own cutoff on (earlier rows were pruned).
   */
  lemma OtherKeysUnaffected(t: seq<Entry>, key: string, other: string, limit: int, window: int,
                            now: int, storeFails: bool, cutoff: int)
    requires other != key && cutoff >= now - window
    ensures CountRecent(CheckRateLimit(t, key, limit, window, now, storeFails).table, other, cutoff)
         == CountRecent(t, other, cutoff)
  {
    var d := CheckRateLimit(t, key, limit, window, now, storeFails);
    if d.allowed {
      CountAppend(Prune(t, now - window), Entry(key, now), other, cutoff);
      PruneKeepsRecent(t, other, now - window, cutoff);
    }
  }

  /** The table after a run of calls for one key at the given times. */
  function Run(t: seq<Entry>, key: string, limit: int, window: int, times: seq<int>): seq<Entry>
    decreases |times|
  {
    if |times| == 0 then t
    else Run(CheckRateLimit(t, key, limit, window, times[0], false).table, key, limit, window, times[1..])
  }

  predicate Nondecreasing(times: seq<int>) {
    forall i, j :: 0 <= i < j < |times| ==> times[i] <= times[j]
  }

  /** `times` never goes back, and starts no earlier than `start`. */
  predicate NotBefore(start: int, times: seq<int>)
    decreases |times|
  {
    |times| == 0 || (start <= times[0] && NotBefore(times[0], times[1..]))
  }

  lemma {:induction false} NondecreasingNotBefore(times: seq<int>)
    requires |times| > 0 && Nondecreasing(times)
    ensures NotBefore(times[0], times)
    decreases |times|
  {
    if |times| > 1 {
      var rest := times[1..];
      forall i, j | 0 <= i < j < |rest| ensures rest[i] <= rest[j] {
        assert rest[i] == times[i + 1] && rest[j] == times[j + 1];
      }
      NondecreasingNotBefore(rest);
    }
  }

  /**
   * Starting from an empty table, after any run of calls with nondecreasing
   * times, at most `limit` attempts are counted in the window ending at the
   * last call.
   */
  lemma RunStaysWithinLimit(key: string, limit: nat, window: int, times: seq<int>)
    requires |times| > 0 && Nondecreasing(times)
    ensures CountRecent(Run([], key, limit, window, times), key, times[|times| - 1] - window) <= limit
  {
    NondecreasingNotBefore(times);
    RunKeepsBound([], key, limit, window, times, times[0]);
  }

  lemma {:induction false} RunKeepsBound(t: seq<Entry>, key: string, limit: int, window: int,
                                         times: seq<int>, start: int)
    requires |times| > 0 && NotBefore(start, times)
    requires CountRecent(t, key, start - window) <= limit
    ensures CountRecent(Run(t, key, limit, window, times), key, times[|times| - 1] - window) <= limit
    decreases |times|
  {
    var rest := times[1..];
    var later := if |rest| == 0 then times[0] else rest[0];
    StepKeepsBound(t, key, limit, window, start, times[0], later);
    var next := CheckRateLimit(t, key, limit, window, times[0], false).table;
    if |rest| > 0 {
      RunKeepsBound(next, key, limit, window, rest, later);
    }
  }

  /** One call at `now`, with the bound known from an earlier `start`, keeps it up to `later`. */
  lemma StepKeepsBound(t: seq<Entry>, key: string, limit: int, window: int, start: int, now: int, later: int)
    requires start <= now <= later
    requires CountRecent(t, key, start - window) <= limit
    ensures CountRecent(CheckRateLimit(t, key, limit, window, now, false).table, key, later - window) <= limit
  {
    CountAntitone(t, key, start - window, now - window);
    WindowBoundPreserved(t, key, limit, window, now, false, later);
  }
}
