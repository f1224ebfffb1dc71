/** The bounded message log shared by both servers: `push` then one `shift` past 200, and `slice(-50)`. */
module ChatLog {

  /** The retention bound checked after every user message is pushed. */
  const MAX_MESSAGES: nat := 200

  /** How many recent messages a login (or a poll without a usable cursor) returns. */
  const RECENT_COUNT: nat := 50

  /** The newest `n` entries of `s` in log order, or all of `s` when it is shorter:
      `s.slice(-n)` for `n > 0`. */
  function Newest<T>(s: seq<T>, n: nat): (r: seq<T>)
    ensures |r| == if |s| <= n then |s| else n
    ensures r == s[|s| - |r|..]
  {
    if |s| <= n then s else s[|s| - n..]
  }

  /** `log.push(m); if (log.length > 200) log.shift();` */
  function Append<T>(log: seq<T>, m: T): (r: seq<T>)
    ensures |r| == if |log| < MAX_MESSAGES then |log| + 1 else |log|
    ensures r[|r| - 1] == m
    ensures log[|log| + 1 - |r|..] + [m] == r
  {
    var grown := log + [m];
    if |grown| > MAX_MESSAGES then grown[1..] else grown
  }

  /** A log within the bound stays within it, and the append is then exactly the newest 200. */
  lemma AppendWithinBound<T>(log: seq<T>, m: T)
    requires |log| <= MAX_MESSAGES
    ensures |Append(log, m)| <= MAX_MESSAGES
    ensures Append(log, m) == Newest(log + [m], MAX_MESSAGES)
  {
  }

  /** The log after appending `ms` one by one. */
  function AppendAll<T>(log: seq<T>, ms: seq<T>): seq<T>
    decreases |ms|
  {
    if ms == [] then log else AppendAll(Append(log, ms[0]), ms[1..])
  }

  lemma NewestOfNewest<T>(s: seq<T>, rest: seq<T>, n: nat)
    ensures Newest(Newest(s, n) + rest, n) == Newest(s + rest, n)
  {
    var t := Newest(s, n);
    assert s + rest == s[..|s| - |t|] + (t + rest);
  }

  lemma SplitFirst<T>(log: seq<T>, ms: seq<T>)
    requires ms != []
    ensures log + [ms[0]] + ms[1..] == log + ms
  {
    assert ms == [ms[0]] + ms[1..];
  }

  /** However many messages are appended to a log within the bound, the result is exactly the
      newest 200 of all of them, in their original relative order. */
  lemma {:induction false} AppendAllKeepsNewest<T>(log: seq<T>, ms: seq<T>)
    requires |log| <= MAX_MESSAGES
    ensures AppendAll(log, ms) == Newest(log + ms, MAX_MESSAGES)
    ensures |AppendAll(log, ms)| <= MAX_MESSAGES
    decreases |ms|
  {
    if ms == [] {
      assert log + ms == log;
    } else {
      var m, rest := ms[0], ms[1..];
      var next := Append(log, m);
      AppendWithinBound(log, m);
      AppendAllKeepsNewest(next, rest);
      NewestOfNewest(log + [m], rest, MAX_MESSAGES);
      SplitFirst(log, ms);
      calc {
        AppendAll(log, ms);
        AppendAll(next, rest);
        Newest(next + rest, MAX_MESSAGES);
        Newest(Newest(log + [m], MAX_MESSAGES) + rest, MAX_MESSAGES);
        Newest(log + ms, MAX_MESSAGES);
      }
    }
  }

  /** A log already over the bound (the pull server's uncapped system messages can make one) keeps
      its length under capped appends: each append drops exactly its oldest entry. */
  lemma {:induction false} AppendAllLong<T>(log: seq<T>, ms: seq<T>)
    requires |log| >= MAX_MESSAGES
    ensures AppendAll(log, ms) == (log + ms)[|ms|..]
    decreases |ms|
  {
    if ms == [] {
      assert log + ms == log;
    } else {
      var next := Append(log, ms[0]);
      assert next == log[1..] + [ms[0]];
      AppendAllLong(next, ms[1..]);
      DropOldest(log, ms);
    }
  }

  /** Dropping the oldest entry, then the first `|ms| - 1` of the rest, drops the first `|ms|`. */
  lemma DropOldest<T>(log: seq<T>, ms: seq<T>)
    requires log != [] && ms != []
    ensures (log[1..] + [ms[0]] + ms[1..])[|ms| - 1..] == (log + ms)[|ms|..]
  {
    assert log[1..] + [ms[0]] + ms[1..] == (log + ms)[1..] by {
      assert [ms[0]] + ms[1..] == ms;
    }
  }
}
