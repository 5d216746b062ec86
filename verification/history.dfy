/**
 The per-room message history: an array that keeps at most the most recent
 one hundred messages, evicting the oldest one on overflow.
 */
module History {

  const Capacity: nat := 100

  /** Reference definition: the most recent Capacity entries of s. */
  function Window<T>(s: seq<T>): seq<T>
  {
    if |s| <= Capacity then s else s[|s| - Capacity..]
  }

  /** `push` followed by one `shift` when the length passes the capacity. */
  function Push<T>(h: seq<T>, m: T): (r: seq<T>)
    ensures |r| > 0 && r[|r| - 1] == m
    ensures |h| <= Capacity ==> r == Window(h + [m])
    ensures |h| <= Capacity ==> |r| <= Capacity
    ensures |h| < Capacity ==> r == h + [m]
    ensures |h| == Capacity ==> r == h[1..] + [m]
  {
    var pushed := h + [m];
    if |pushed| > Capacity then pushed[1..] else pushed
  }

  /** Pushing each message of ms in turn. */
  function PushAll<T>(h: seq<T>, ms: seq<T>): seq<T>
    decreases |ms|
  {
    if |ms| == 0 then h else PushAll(Push(h, ms[0]), ms[1..])
  }

  /** Windowing first and appending later loses nothing the final window keeps. */
  lemma WindowAbsorbs<T>(a: seq<T>, b: seq<T>)
    ensures Window(Window(a) + b) == Window(a + b)
  {
    if |a| > Capacity {
      var w := a[|a| - Capacity..];
      assert |w + b| >= Capacity;
      assert (w + b)[|w + b| - Capacity..] == (a + b)[|a + b| - Capacity..];
    }
  }

  /** However many messages are sent, the stored history is exactly the
      most recent Capacity of them, oldest first. */
  lemma {:induction false} PushAllKeepsWindow<T>(h: seq<T>, ms: seq<T>)
    requires |h| <= Capacity
    ensures PushAll(h, ms) == Window(h + ms)
    decreases |ms|
  {
    if |ms| == 0 {
      assert h + ms == h;
    } else {
      var h1 := Push(h, ms[0]);
      assert PushAll(h, ms) == PushAll(h1, ms[1..]);
      PushAllKeepsWindow(h1, ms[1..]);
      assert h1 == Window(h + [ms[0]]);
      WindowAbsorbs(h + [ms[0]], ms[1..]);
      ConsSplit(h, ms);
    }
  }

  lemma ConsSplit<T>(h: seq<T>, ms: seq<T>)
    requires |ms| > 0
    ensures h + [ms[0]] + ms[1..] == h + ms
  {
  }

  /** Appending 101 messages to an empty room keeps exactly the last 100:
      the first one is evicted. */
  lemma EvictsOldest<T>(ms: seq<T>)
    requires |ms| == Capacity + 1
    ensures PushAll([], ms) == ms[1..]
    ensures |PushAll([], ms)| == Capacity
  {
    var empty: seq<T> := [];
    PushAllKeepsWindow(empty, ms);
    assert empty + ms == ms;
    assert Window(ms) == ms[1..];
  }
}
