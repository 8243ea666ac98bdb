/** The debug overlay's ring of log lines, log.c, for any ring size and any type of line. */
module LogRing {
  /** The last `n` elements, or all of them. */
  function LastOf<T>(s: seq<T>, n: nat): (r: seq<T>)
    ensures |r| == if |s| < n then |s| else n
  {
    if |s| <= n then s else s[|s| - n..]
  }

  class Ring<T(0)> {
    const ring: array<T>
    const snap: array<T>
    var head: nat
    var count: nat
    ghost var pushed: seq<T>

    /** Slot `(head - k) % N` holds the k-th line from the end, for the lines that are kept. */
    ghost predicate Valid()
      reads this, ring
    {
      && 0 < ring.Length == snap.Length && ring != snap
      && head < ring.Length
      && count == (if |pushed| < ring.Length then |pushed| else ring.Length)
      && (forall k | 1 <= k <= count :: ring[Back(head, k, ring.Length)] == pushed[|pushed| - k])
    }

    constructor (size: nat)
      requires size > 0
      ensures Valid() && pushed == [] && ring.Length == size && fresh(ring) && fresh(snap)
    {
      ring, snap := new T[size], new T[size];
      head, count, pushed := 0, 0, [];
    }

    /** The end of _swaylock_log. */
    method Push(line: T)
      requires Valid()
      modifies this, ring
      ensures Valid() && pushed == old(pushed) + [line]
    {
      var n := ring.Length;
      ghost var slots, h := ring[..], head;
      ring[head] := line;
      head := (head + 1) % n;
      if count < n {
        count := count + 1;
      }
      pushed := pushed + [line];
      forall k | 1 <= k <= count ensures ring[Back(head, k, n)] == pushed[|pushed| - k] {
        BackAfterPush(h, k, n);
        if k > 1 {
          assert ring[Back(h, k - 1, n)] == slots[Back(h, k - 1, n)];
        }
      }
    }

    /** swaylock_log_get_overlay: the kept lines, oldest first. */
    method GetOverlay() returns (n: nat)
      requires Valid()
      modifies snap
      ensures Valid()
      ensures n <= snap.Length && snap[..n] == LastOf(pushed, ring.Length)
    {
      n := count;
      var size := ring.Length;
      var start := (head + size - count) % size;
      for i := 0 to count
        invariant Valid()
        invariant forall j | 0 <= j < i :: snap[j] == pushed[|pushed| - count + j]
      {
        var idx := (start + i) % size;
        ForwardIsBack(head, count, i, size);
        snap[i] := ring[idx];
      }
      assert snap[..n] == LastOf(pushed, size);
    }
  }

  /** The index `k` places before `head`, around the ring. */
  function Back(head: nat, k: nat, n: nat): (i: nat)
    requires head < n && k <= n
    ensures i < n
  {
    if k <= head then head - k else head + n - k
  }

  lemma BackAfterPush(h: nat, k: nat, n: nat)
    requires h < n && 1 <= k <= n
    ensures Back((h + 1) % n, k, n) == if k == 1 then h else Back(h, k - 1, n)
    ensures 1 < k ==> Back(h, k - 1, n) != h
  {}

  lemma ForwardIsBack(head: nat, count: nat, i: nat, n: nat)
    requires head < n && i < count <= n
    ensures ((head + n - count) % n + i) % n == Back(head, count - i, n)
  {
    WrapOnce(head + n - count, n);
    WrapOnce((head + n - count) % n + i, n);
  }

  lemma WrapOnce(x: nat, n: nat)
    requires 0 < n && x < 2 * n
    ensures x % n == if x < n then x else x - n
  {
    if x >= n {
      assert x == n + (x - n);
      assert x / n == 1;
    } else {
      assert x / n == 0;
    }
  }
}
