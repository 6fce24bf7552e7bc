/** The coordinator part of `main` in src/main.rs: spawning one worker per
    index, draining the channel into `out`, sorting `out`, and the program's
    overall outcome.

    Threads and the mpsc channel are replaced by a sequential model: each
    worker's sends are computed by `Scan`, and the order in which the channel
    delivers them is chosen by a scheduler oracle (`schedule`), so every
    interleaving of the workers' message streams is covered. */
module Report {
  import opened Base
  import opened Scanner
  import opened Arguments

  /** The workers' message streams one after another, worker 0 first. */
  function Flatten(ws: seq<seq<int>>): seq<int>
  {
    if ws == [] then [] else Flatten(ws[..|ws| - 1]) + ws[|ws| - 1]
  }

  predicate NonDecreasing(s: seq<int>) {
    forall j, k :: 0 <= j < k < |s| ==> s[j] <= s[k]
  }

  /** The spawn loop `for i in 0..num_threads`: the message stream of every worker. */
  method Spawn(n: u16, open: set<int>) returns (workers: seq<seq<int>>)
    ensures |workers| == n as int
    ensures forall i :: 0 <= i < n as int ==> workers[i] == WorkerOutput(i, n as int, open)
  {
    workers := [];
    var i: u16 := 0;
    while i < n
      invariant i <= n && |workers| == i as int
      invariant forall k :: 0 <= k < i as int ==> workers[k] == WorkerOutput(k, n as int, open)
    {
      var sent := Scan(i, n, open);
      workers := workers + [sent];
      i := i + 1;
    }
  }

  /** The index of the first worker with a message still in flight, or |ws|. */
  function FirstPending(ws: seq<seq<int>>): (k: nat)
    ensures k <= |ws|
    ensures k < |ws| ==> ws[k] != []
    ensures forall j :: 0 <= j < k ==> ws[j] == []
  {
    if ws == [] then 0
    else if ws[0] != [] then 0
    else 1 + FirstPending(ws[1..])
  }

  lemma {:induction false} FlattenAllEmpty(ws: seq<seq<int>>)
    requires forall j :: 0 <= j < |ws| ==> ws[j] == []
    ensures Flatten(ws) == []
  {
    if ws != [] {
      FlattenAllEmpty(ws[..|ws| - 1]);
    }
  }

  /** Delivering the head of worker w's stream removes exactly that one message
      from what is still in flight. */
  lemma {:induction false} FlattenTake(ws: seq<seq<int>>, w: nat)
    requires w < |ws| && ws[w] != []
    ensures multiset(Flatten(ws))
            == multiset{ws[w][0]} + multiset(Flatten(ws[w := ws[w][1..]]))
    ensures |Flatten(ws)| == 1 + |Flatten(ws[w := ws[w][1..]])|
  {
    var ws' := ws[w := ws[w][1..]];
    var m := |ws| - 1;
    assert ws'[..m] == if w == m then ws[..m] else ws[..m][w := ws[w][1..]];
    if w == m {
      assert ws[w] == [ws[w][0]] + ws[w][1..];
    } else {
      FlattenTake(ws[..m], w);
    }
  }

  /** The receive loop `for port in rx { out.push(port) }`: messages arrive in
      the order the schedule picks; when the schedule runs out or picks a
      worker with nothing in flight, the first worker with a message goes next.
      The loop ends when nothing is in flight, i.e. after every worker is done. */
  method Receive(workers: seq<seq<int>>, schedule: seq<nat>) returns (out: seq<int>)
    ensures multiset(out) == multiset(Flatten(workers))
  {
    var pending := workers;
    var step := 0;
    out := [];
    while FirstPending(pending) < |pending|
      invariant |pending| == |workers|
      invariant multiset(out) + multiset(Flatten(pending)) == multiset(Flatten(workers))
      decreases |Flatten(pending)|
    {
      var w := if step < |schedule| && schedule[step] < |pending| && pending[schedule[step]] != []
               then schedule[step] else FirstPending(pending);
      FlattenTake(pending, w);
      out := out + [pending[w][0]];
      pending := pending[w := pending[w][1..]];
      step := step + 1;
    }
    FlattenAllEmpty(pending);
  }

  /** Exchanges two neighbouring elements. */
  method SwapDown(a: array<int>, j: int)
    requires 0 < j < a.Length
    modifies a
    ensures a[j - 1] == old(a[j]) && a[j] == old(a[j - 1])
    ensures forall k :: 0 <= k < a.Length && k != j - 1 && k != j ==> a[k] == old(a[k])
    ensures multiset(a[..]) == old(multiset(a[..]))
  {
    a[j - 1], a[j] := a[j], a[j - 1];
  }

  /** One pass of insertion: moves a[i] left past every larger element, so
      that a[..i+1] is ordered afterwards. */
  method InsertAt(a: array<int>, i: int)
    requires 0 <= i < a.Length
    requires NonDecreasing(a[..i])
    modifies a
    ensures NonDecreasing(a[..i + 1])
    ensures multiset(a[..]) == old(multiset(a[..]))
  {
    var j := i;
    while j > 0 && a[j - 1] > a[j]
      invariant 0 <= j <= i
      invariant forall k, l :: 0 <= k < l <= i && k != j && l != j ==> a[k] <= a[l]
      invariant forall l :: j < l <= i ==> a[j] < a[l]
      invariant multiset(a[..]) == old(multiset(a[..]))
      decreases j
    {
      SwapDown(a, j);
      j := j - 1;
    }
  }

  /** `out.sort()`: afterwards `a` is ordered and holds the same ports. */
  method SortInPlace(a: array<int>)
    modifies a
    ensures NonDecreasing(a[..])
    ensures multiset(a[..]) == old(multiset(a[..]))
  {
    if a.Length == 0 { return; }
    for i := 1 to a.Length
      invariant NonDecreasing(a[..i])
      invariant multiset(a[..]) == old(multiset(a[..]))
    {
      InsertAt(a, i);
    }
    assert a[..a.Length] == a[..];
  }

  /** A strictly increasing sequence holds each value at most once. */
  lemma {:induction false} StrictCount(s: seq<int>, x: int)
    requires StrictlyIncreasing(s)
    ensures multiset(s)[x] == if x in s then 1 else 0
  {
    if s != [] {
      assert s == [s[0]] + s[1..];
      StrictCount(s[1..], x);
      if x == s[0] {
        assert x !in s[1..];
      }
    }
  }

  /** Worker streams 0..|ws|-1 together hold each open port in range exactly
      once if its owner has been spawned, and nothing else. */
  lemma {:induction false} FlattenCount(ws: seq<seq<int>>, n: int, open: set<int>, x: int)
    requires 1 <= n && |ws| <= n
    requires forall i :: 0 <= i < |ws| ==> ws[i] == WorkerOutput(i, n, open)
    ensures multiset(Flatten(ws))[x]
            == if x in open && 1 <= x <= MAX && (x - 1) % n < |ws| then 1 else 0
  {
    if ws != [] {
      var m := |ws| - 1;
      assert Flatten(ws) == Flatten(ws[..m]) + ws[m];
      FlattenCount(ws[..m], n, open, x);
      WorkerOutputSpec(m, n, open);
      StrictCount(ws[m], x);
      assert x in ws[m] <==> x in open && Owns(m, n, x);
    }
  }

  /** Two positions of a sequence in which no value occurs twice hold different values. */
  lemma NoDupDistinct(s: seq<int>, j: int, k: int)
    requires 0 <= j < k < |s|
    requires forall x :: multiset(s)[x] <= 1
    ensures s[j] != s[k]
  {
    assert s == s[..k] + s[k..];
    assert s[j] in s[..k];
    assert s[k] == s[k..][0];
    assert multiset(s)[s[k]] == multiset(s[..k])[s[k]] + multiset(s[k..])[s[k]];
  }

  /** An ordered sequence in which no value occurs twice is strictly increasing. */
  lemma SortedNoDupStrict(s: seq<int>)
    requires NonDecreasing(s)
    requires forall x :: multiset(s)[x] <= 1
    ensures StrictlyIncreasing(s)
  {
    forall j, k | 0 <= j < k < |s| ensures s[j] < s[k] {
      NoDupDistinct(s, j, k);
    }
  }

  /** A strictly increasing sequence is determined by its elements. */
  lemma {:induction false} StrictUnique(a: seq<int>, b: seq<int>)
    requires StrictlyIncreasing(a) && StrictlyIncreasing(b)
    requires forall x :: x in a <==> x in b
    ensures a == b
  {
    if a != [] { assert a[0] in a; }
    if b != [] { assert b[0] in b; }
    if a != [] && b != [] {
      assert a[0] in b && b[0] in a;
      assert a[0] == b[0];
      forall x ensures x in a[1..] <==> x in b[1..] {
        if x in a[1..] { assert x in a && x != a[0]; }
        if x in b[1..] { assert x in b && x != b[0]; }
      }
      StrictUnique(a[1..], b[1..]);
    }
  }

  /** The ports worker 0 of a single-worker scan sends: every open port in
      1..MAX, ascending. */
  lemma SingleWorker(open: set<int>)
    ensures StrictlyIncreasing(WorkerOutput(0, 1, open))
    ensures forall p :: p in WorkerOutput(0, 1, open) <==> p in open && 1 <= p <= MAX
  {
    WorkerOutputSpec(0, 1, open);
    forall p | 1 <= p <= MAX ensures Owns(0, 1, p) {
      DivModUnique(p - 1, 1, p - 1, 0);
    }
  }

  /** Once every worker of `n >= 1` has sent its stream, each open port in
      1..MAX is in the channel's contents exactly once, and nothing else is. */
  lemma ReceivedCounts(received: seq<int>, workers: seq<seq<int>>, n: int, open: set<int>)
    requires 1 <= n && |workers| == n
    requires forall i :: 0 <= i < n ==> workers[i] == WorkerOutput(i, n, open)
    requires multiset(received) == multiset(Flatten(workers))
    ensures forall x :: multiset(received)[x] == if x in open && 1 <= x <= MAX then 1 else 0
  {
    forall x ensures multiset(received)[x] == if x in open && 1 <= x <= MAX then 1 else 0 {
      FlattenCount(workers, n, open, x);
    }
  }

  /** What the sorted contents of the channel are, once every worker of `n`
      has sent its stream: every open port in 1..MAX exactly once, ascending,
      whatever `n >= 1` is; nothing at all when `n` is 0. */
  lemma SortedReport(report: seq<int>, workers: seq<seq<int>>, n: int, open: set<int>)
    requires 0 <= n && |workers| == n
    requires forall i :: 0 <= i < n ==> workers[i] == WorkerOutput(i, n, open)
    requires NonDecreasing(report)
    requires multiset(report) == multiset(Flatten(workers))
    ensures n == 0 ==> report == []
    ensures StrictlyIncreasing(report)
    ensures forall p :: p in report <==> n >= 1 && p in open && 1 <= p <= MAX
    ensures n >= 1 ==> report == WorkerOutput(0, 1, open)
  {
    if n == 0 {
      assert workers == [];
      assert |multiset(report)| == 0;
    } else {
      ReceivedCounts(report, workers, n, open);
      SortedNoDupStrict(report);
      SingleWorker(open);
      assert forall p :: p in report <==> multiset(report)[p] > 0;
      StrictUnique(report, WorkerOutput(0, 1, open));
    }
  }

  /** Lines 77-94 of `main`: spawn `n` workers, drain the channel into `out`
      in the order the schedule gives, sort `out`. The report is strictly
      ascending, holds the open ports in 1..MAX exactly once each, and is the
      same for every schedule and every n >= 1; with n = 0 it is empty. */
  method Collect(n: u16, open: set<int>, schedule: seq<nat>) returns (report: seq<int>)
    ensures n == 0 ==> report == []
    ensures StrictlyIncreasing(report)
    ensures forall p :: p in report <==> n >= 1 && p in open && 1 <= p <= MAX
    ensures n >= 1 ==> report == WorkerOutput(0, 1, open)
  {
    var workers := Spawn(n, open);
    var out := Receive(workers, schedule);
    var a := new int[|out|](k requires 0 <= k < |out| => out[k]);
    assert a[..] == out;
    SortInPlace(a);
    report := a[..];
    SortedReport(report, workers, n as int, open);
  }

  /** How a run of the program ends: with an exit code before any scan, or
      with the report after "Scan complete!". */
  datatype Outcome = Exit(code: int) | Completed(ports: seq<int>)

  /** `main`: resolve the arguments, exit on an error (0 for help, 1 otherwise)
      or scan the resolved address. `network(ip)` is the set of ports that accept
      a connection on `ip`. The source reads `args[0]` (the program name) first. */
  method RunMain<Ip>(args: seq<string>, parseIp: string -> Option<Ip>,
                     parseU16: string -> Option<u16>, network: Ip -> set<int>,
                     schedule: seq<nat>) returns (o: Outcome)
    requires |args| >= 1
    ensures Resolve(args, parseIp, parseU16).Err? ==>
              o == Exit(if Resolve(args, parseIp, parseU16).error == HelpSentinel then 0 else 1)
    ensures Resolve(args, parseIp, parseU16).Ok? ==>
              var t := Resolve(args, parseIp, parseU16).value;
              o.Completed? &&
              o.ports == if t.threads == 0 then [] else WorkerOutput(0, 1, network(t.ipaddr))
  {
    var program := args[0];
    var r := Resolve(args, parseIp, parseU16);
    var code := ExitCode(r);
    if code.Some? {
      return Exit(code.value);
    }
    var report := Collect(r.value.threads, network(r.value.ipaddr), schedule);
    o := Completed(report);
  }
}
