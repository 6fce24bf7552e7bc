/** The worker loop `scan` of src/main.rs: worker `start` of `n` probes the
    ports start+1, start+1+n, start+1+2n, ... up to MAX and sends each one
    that accepts a connection.

    The TCP connect is replaced by an oracle: `open` is the set of ports on
    which a connection would succeed. */
module Scanner {
  import opened Base

  /** Worker `i` of `n` is responsible for port `p`. */
  predicate Owns(i: int, n: int, p: int)
    requires n >= 1
  {
    1 <= p <= MAX && (p - 1) % n == i
  }

  predicate StrictlyIncreasing(s: seq<int>) {
    forall j, k :: 0 <= j < k < |s| ==> s[j] < s[k]
  }

  /** What the loop sends from `port` on: the open ports among
      port, port+n, port+2n, ... that do not exceed MAX. */
  function SentFrom(port: int, n: int, open: set<int>): seq<int>
    requires port >= 1 && n >= 1
    decreases MAX + 1 - port
  {
    if port > MAX then []
    else (if port in open then [port] else []) + SentFrom(port + n, n, open)
  }

  /** Everything worker `i` of `n` sends. */
  function WorkerOutput(i: int, n: int, open: set<int>): seq<int>
    requires 0 <= i < n
  {
    SentFrom(i + 1, n, open)
  }

  /** n * d >= n for positive n and d. */
  lemma MulAtLeast(n: int, d: int)
    requires n >= 1 && d >= 1
    ensures n * d >= n
  {
  }

  /** Euclidean division is determined by quotient and remainder. */
  lemma DivModUnique(x: int, n: int, q: int, r: int)
    requires n >= 1 && 0 <= r < n && x == n * q + r
    ensures x / n == q && x % n == r
  {
    var d := x / n - q;
    assert n * d == r - x % n by {
      assert n * d == n * (x / n) - n * q;
    }
    if d >= 1 {
      MulAtLeast(n, d);
    } else if d <= -1 {
      MulAtLeast(n, -d);
    }
  }

  /** Adding n does not change the residue modulo n. */
  lemma ResidueStep(a: int, n: int)
    requires n >= 1
    ensures (a + n) % n == a % n
  {
    var q := a / n;
    assert a + n == n * (q + 1) + a % n by {
      assert n * (q + 1) == n * q + n;
    }
    DivModUnique(a + n, n, q + 1, a % n);
  }

  /** Two numbers with the same residue modulo n differ by at least n. */
  lemma SameResidueApart(a: int, b: int, n: int)
    requires n >= 1 && a < b && a % n == b % n
    ensures b >= a + n
  {
    var qa, qb := a / n, b / n;
    assert b - a == n * (qb - qa) by {
      assert n * (qb - qa) == n * qb - n * qa;
    }
    if qb - qa < 0 {
      MulAtLeast(n, qa - qb);
    } else if qb - qa >= 1 {
      MulAtLeast(n, qb - qa);
    }
  }

  /** Every port sent from `port` on lies between `port` and MAX. */
  lemma {:induction false} SentFromBounds(port: int, n: int, open: set<int>)
    requires port >= 1 && n >= 1
    ensures forall p :: p in SentFrom(port, n, open) ==> port <= p <= MAX
    decreases MAX + 1 - port
  {
    if port <= MAX {
      SentFromBounds(port + n, n, open);
    }
  }

  /** What the loop sends is strictly increasing. */
  lemma {:induction false} SentFromSorted(port: int, n: int, open: set<int>)
    requires port >= 1 && n >= 1
    ensures StrictlyIncreasing(SentFrom(port, n, open))
    decreases MAX + 1 - port
  {
    if port <= MAX {
      var head := if port in open then [port] else [];
      var rest := SentFrom(port + n, n, open);
      SentFromSorted(port + n, n, open);
      SentFromBounds(port + n, n, open);
      assert SentFrom(port, n, open) == head + rest;
      forall j, k | 0 <= j < k < |head + rest|
        ensures (head + rest)[j] < (head + rest)[k]
      {
        if j >= |head| {
          assert (head + rest)[j] == rest[j - |head|];
        } else {
          assert rest[k - |head|] in rest;
        }
      }
    }
  }

  /** The loop sends exactly the open ports from `port` to MAX that share
      `port`'s residue modulo n. */
  lemma {:induction false} SentFromMembers(port: int, n: int, open: set<int>)
    requires port >= 1 && n >= 1
    ensures forall p :: p in SentFrom(port, n, open) <==>
              p in open && port <= p <= MAX && (p - 1) % n == (port - 1) % n
    decreases MAX + 1 - port
  {
    if port <= MAX {
      var r := (port - 1) % n;
      var rest := SentFrom(port + n, n, open);
      SentFromMembers(port + n, n, open);
      ResidueStep(port - 1, n);
      assert (port + n - 1) % n == r;
      assert forall p :: p in rest <==> p in open && port + n <= p <= MAX && (p - 1) % n == r;
      forall p | p in open && port < p <= MAX && (p - 1) % n == r
        ensures p in rest
      {
        SameResidueApart(port - 1, p - 1, n);
      }
    }
  }

  /** Worker `i` sends, in increasing order, exactly the open ports it owns. */
  lemma WorkerOutputSpec(i: int, n: int, open: set<int>)
    requires 0 <= i < n
    ensures StrictlyIncreasing(WorkerOutput(i, n, open))
    ensures forall p :: p in WorkerOutput(i, n, open) <==> p in open && Owns(i, n, p)
  {
    SentFromSorted(i + 1, n, open);
    SentFromMembers(i + 1, n, open);
    DivModUnique(i, n, 0, i);
    assert (i + 1 - 1) % n == i;
    forall p ensures p in WorkerOutput(i, n, open) <==> p in open && Owns(i, n, p) {
      if p in open && Owns(i, n, p) && p - 1 < i {
        DivModUnique(p - 1, n, 0, p - 1);
      }
    }
  }

  /** For n >= 1, the strides of workers 0..n-1 are pairwise disjoint. */
  lemma StridesDisjoint(n: int, i: int, j: int, p: int)
    requires 0 <= i < n && 0 <= j < n && i != j
    ensures !(Owns(i, n, p) && Owns(j, n, p))
  {
  }

  /** For n >= 1, the strides of workers 0..n-1 cover exactly 1..MAX: every
      port has one owner below n, and every owned port is in range. */
  lemma StridesCover(n: int, p: int)
    requires n >= 1
    ensures 1 <= p <= MAX <==> exists i :: 0 <= i < n && Owns(i, n, p)
  {
    if 1 <= p <= MAX {
      assert Owns((p - 1) % n, n, p);
    }
  }

  /** `scan(tx, start_port, addr, num_threads)`: returns the ports it sends, in
      sending order.

      The source's `port` is a `u16`, so its guard `port <= MAX` is always true
      and the loop really ends when `port += num_threads` overflows; `port` is
      an unbounded integer here, so the guard is the intended bound (see
      `AsWrittenStep` below). */
  method Scan(start: u16, n: u16, open: set<int>) returns (sent: seq<int>)
    requires start < n
    ensures sent == WorkerOutput(start as int, n as int, open)
    ensures StrictlyIncreasing(sent)
    ensures forall p :: p in sent <==> p in open && Owns(start as int, n as int, p)
  {
    var i, stride := start as int, n as int;
    assert i + 1 <= MAX;  // `start_port + 1` cannot overflow: start_port < num_threads <= 65535
    var port: int := i + 1;
    sent := [];
    while port <= MAX
      invariant port >= 1
      invariant sent + SentFrom(port, stride, open) == WorkerOutput(i, stride, open)
      decreases MAX + 1 - port
    {
      if port in open {
        sent := sent + [port];
      }
      port := port + stride;
    }
    WorkerOutputSpec(i, stride, open);
  }

  /** One iteration's exit decision as the source writes it: the guard
      `port <= MAX` on a `u16`, then the checked `port += num_threads` of a
      debug build, which panics on overflow. Wrap-around (release builds)
      is not modelled. */
  datatype Step = Continue(next: u16) | GuardFalse | OverflowPanic

  function AsWrittenStep(port: u16, n: u16): (s: Step)
    ensures s != GuardFalse
    ensures s.Continue? <==> port as int + n as int <= MAX
    ensures s.Continue? ==> s.next as int == port as int + n as int
  {
    if !(port as int <= MAX) then GuardFalse
    else if port as int + n as int <= MAX then Continue((port as int + n as int) as u16)
    else OverflowPanic
  }

  /** The last port of every worker's stride leads to an overflow, not to an
      exit of the loop: for example worker 0 of 4 reaches 65533 and then
      overflows, although the guard still holds. */
  lemma AsWrittenEndsInOverflow(start: u16, n: u16, last: u16)
    requires start < n
    requires Owns(start as int, n as int, last as int) && last as int + n as int > MAX
    ensures AsWrittenStep(last, n) == OverflowPanic
  {
  }

  lemma OverflowExample()
    ensures Owns(0, 4, 65533) && 65533 + 4 > MAX
    ensures AsWrittenStep(65533, 4) == OverflowPanic
  {
  }
}
