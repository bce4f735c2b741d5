/** A message history bounded to its `cap` most recent records: each record
    is pushed on the end, and when the array has grown past `cap` the oldest
    is shifted off the front. Both room generations keep one (cap 100 in
    Room.js, cap 50 in server.js). */
module History {

  /** The last `n` elements of `s`, all of them when `s` has no more than `n`. */
  function LastN<T>(s: seq<T>, n: nat): (r: seq<T>)
    ensures |r| <= n && |r| <= |s|
    ensures |s| <= n ==> r == s
    ensures r == s[|s| - |r|..]
  {
    if |s| <= n then s else s[|s| - n..]
  }

  /** `h.push(x); if (h.length > cap) h.shift();` */
  function Push<T>(h: seq<T>, x: T, cap: nat): (r: seq<T>)
    ensures cap > 0 ==> r != [] && r[|r| - 1] == x
    ensures |h| <= cap ==> r == LastN(h + [x], cap)
  {
    var g := h + [x];
    if |g| > cap then g[1..] else g
  }

  /** Pushing every element of `xs` in turn. */
  function PushAll<T>(h: seq<T>, xs: seq<T>, cap: nat): (r: seq<T>)
    ensures |h| <= cap ==> |r| <= cap
    ensures cap > 0 && xs != [] ==> r != [] && r[|r| - 1] == xs[|xs| - 1]
    decreases |xs|
  {
    if xs == [] then h else PushAll(Push(h, xs[0], cap), xs[1..], cap)
  }

  /** One push on a window of the last `cap` records of `log` is the window of
      `log` extended by that record: the bound holds, the oldest record is the
      one dropped, and the order of the others is kept. */
  lemma PushKeepsWindow<T>(log: seq<T>, x: T, cap: nat)
    ensures Push(LastN(log, cap), x, cap) == LastN(log + [x], cap)
  {
    var g := LastN(log, cap) + [x];
    if |log| >= cap {
      assert g == log[|log| - cap..] + [x];
      if cap > 0 {
        assert g[1..] == (log + [x])[|log| + 1 - cap..];
      }
    }
  }

  /** After any sequence of pushes onto a window of `log`, the history is the
      last `cap` records of everything pushed, in arrival order. */
  lemma {:induction false} PushAllIsWindow<T>(log: seq<T>, xs: seq<T>, cap: nat)
    ensures PushAll(LastN(log, cap), xs, cap) == LastN(log + xs, cap)
    decreases |xs|
  {
    if xs == [] {
      assert log + xs == log;
    } else {
      var w := LastN(log, cap);
      assert PushAll(w, xs, cap) == PushAll(Push(w, xs[0], cap), xs[1..], cap);
      PushKeepsWindow(log, xs[0], cap);
      assert log + xs == (log + [xs[0]]) + xs[1..];
      PushAllIsWindow(log + [xs[0]], xs[1..], cap);
    }
  }

  /** From an empty history, any sequence of pushes leaves at most `cap`
      records: exactly the most recent ones, oldest first. */
  lemma PushAllFromEmpty<T>(xs: seq<T>, cap: nat)
    ensures PushAll([], xs, cap) == LastN(xs, cap)
    ensures |PushAll([], xs, cap)| <= cap
  {
    PushAllIsWindow([], xs, cap);
    assert [] + xs == xs;
  }
}
