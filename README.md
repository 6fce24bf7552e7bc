# ip-sniffer: a Dafny model of the argument resolver and the port scan

ip-sniffer is a small TCP port scanner (`src/main.rs`). It takes a target
address and a worker count, has every worker probe its own stride of the
port space 1..65535, gathers the open ports through a channel, sorts them
and prints them. This project models three pieces of that file:

- `arguments.dfy`, module `Arguments`: `Arguments::new`, which turns the
  command-line tokens into `Ok(address, threads)`, the `"help"` sentinel or
  an error message, and the exit-code choice `main` makes on its result.
  `IpAddr::from_str` and `str::parse::<u16>` are parameters (partial
  functions returning `Option`), so every lemma holds for any parser.
- `scan.dfy`, module `Scanner`: the worker loop `scan`. Worker `i` of `n`
  visits `i+1, i+1+n, ...` up to 65535. The TCP connect is replaced by an
  oracle set `open` of ports that accept a connection.
- `report.dfy`, module `Report`: the spawn loop, the receive loop that pushes
  every message into `out`, `out.sort()`, and `main` as a whole. Threads and
  the channel become a sequential model. A scheduler oracle `schedule`
  picks which worker's next message the channel delivers, so every
  interleaving of the workers' streams can happen.
- `base.dfy`, module `Base`: `Option`, Rust's `u16` and the constant `MAX`.

Two behaviours of the code that a reader might not expect:
- The help flag is recognised in position 1 whenever there are 2 to 4 tokens,
  whatever follows it, not only when it is the sole argument.
- A worker count of 0 (`-j 0`) is accepted. No worker is spawned, and the
  report is empty.

## Model

| member | source | states |
|---|---|---|
| Arguments.Resolve | src/main.rs:17-45 | a success has 2..4 tokens and no help flag in position 1; a success without `-j` has 4 threads; every error is one of the six messages of the source |
| Arguments.ExitCode | src/main.rs:64-71 | the run goes on exactly when resolution succeeded; exit 0 exactly for the help sentinel, exit 1 for every other error |
| Arguments.MessagesDistinct | src/main.rs:19-39 | the six error strings are pairwise distinct, so "help" is never a real error |
| Arguments.CountCheckedFirst | src/main.rs:18-22 | fewer than 2 tokens gives "Not enough arguments…", more than 4 gives "Too many arguments.", whatever the tokens are |
| Arguments.HelpIff | src/main.rs:24-32 | the result is the help sentinel, and the exit code 0, if and only if there are 2..4 tokens and token 1 is `-h` or `-help` |
| Arguments.JFlag | src/main.rs:34-41 | with `-j`: a usage error unless there are exactly 4 tokens; then "Invalid thread count" if token 2 is not a u16; then "Invalid IP address" if token 3 is not an address; otherwise both parsed values |
| Arguments.ThreadsBeforeAddress | src/main.rs:38-39 | with both the thread count and the address unparsable, the thread-count error is the one reported |
| Arguments.BareAddress | src/main.rs:43-44 | any other token 1 is parsed as the address with 4 threads, and tokens 2 and 3 do not affect the result |
| Arguments.OkIff | src/main.rs:17-45 | a given success value is produced if and only if the tokens have the `-j` shape that parses to it, or the bare-address shape with 4 threads |
| Scanner.SentFromBounds | src/main.rs:49-56 | every port the loop sends from `port` on lies between `port` and 65535 |
| Scanner.SentFromSorted | src/main.rs:49-56 | the ports the loop sends are strictly increasing |
| Scanner.SentFromMembers | src/main.rs:49-56 | the loop sends exactly the open ports from `port` to 65535 that are congruent to `port` modulo the stride |
| Scanner.WorkerOutputSpec | src/main.rs:48-57 | worker `i` of `n` sends, in increasing order, exactly the open ports `p` in 1..65535 with `(p-1) mod n = i` |
| Scanner.StridesDisjoint | src/main.rs:77-80 | two different workers never own the same port |
| Scanner.StridesCover | src/main.rs:77-80 | for `n >= 1`, a port is in 1..65535 if and only if some worker below `n` owns it |
| Scanner.Scan | src/main.rs:48-58 | the loop starting at `start_port + 1` with step `num_threads` returns the worker's whole stream, which is strictly increasing and holds exactly the open ports of its stride |
| Scanner.AsWrittenStep | src/main.rs:50-56 | one iteration as written: the u16 guard `port <= MAX` is never false; the step continues exactly when `port + num_threads` fits in 65535 and otherwise overflows |
| Scanner.AsWrittenEndsInOverflow | src/main.rs:50-56 | for the last port of any worker's stride, the as-written step is an overflow, not a loop exit |
| Scanner.OverflowExample | src/main.rs:50-56 | worker 0 of 4 reaches port 65533 with the guard true, and the next step overflows |
| Report.Spawn | src/main.rs:77-82 | one stream per worker index `0..num_threads`, each the whole output of that worker |
| Report.Receive | src/main.rs:84-89 | the receive loop ends only when nothing is in flight, and `out` holds exactly the messages of all workers, as a multiset, whatever the schedule |
| Report.SortInPlace | src/main.rs:92 | after the sort, `out` is ordered and is a permutation of what it held |
| Report.FlattenCount | src/main.rs:77-89 | the streams of workers `0..k-1` hold each open port in 1..65535 whose owner is below `k` exactly once, and nothing else |
| Report.StrictUnique | src/main.rs:92-94 | two strictly increasing port lists with the same elements are equal, so the sorted report is fixed by the set of ports found |
| Report.SingleWorker | src/main.rs:48-57 | a one-worker scan sends every open port in 1..65535, ascending |
| Report.ReceivedCounts | src/main.rs:84-89 | once all `n >= 1` workers have sent everything, each open port in 1..65535 is received exactly once, and no other port |
| Report.SortedReport | src/main.rs:84-94 | the sorted contents of the channel are strictly increasing, equal the open ports in 1..65535 as a set, and equal the one-worker scan for every `n >= 1`; empty for `n = 0` |
| Report.Collect | src/main.rs:77-94 | the report is empty for 0 workers; otherwise strictly ascending, with no duplicates, holding exactly the open ports in 1..65535, and the same for every worker count and every schedule |
| Report.RunMain | src/main.rs:60-96 | a resolution error ends the run with exit code 0 for help and 1 otherwise; a success ends with the sorted open ports of the resolved address (empty with 0 threads) |

## Findings

| source | as written | input that shows it | evidently intended | confidence | as-written member | corrected member |
|---|---|---|---|---|---|---|
| src/main.rs:50-56 | `port` is a `u16`, so the guard `port <= MAX` with `MAX = 65535` is always true. The loop can only be left through `port += num_threads` overflowing: a panic after the last probe in a debug build, a wrap-around in a release build. After wrapping, the worker scans again from a small port without end, so the report is never printed | `-j 4 127.0.0.1`: worker 0 reaches port 65533, the guard holds, and 65533 + 4 does not fit in a u16 | stop after the last port that is at most 65535 | high; not executed | Scanner.AsWrittenEndsInOverflow | Scanner.Scan |

## Left out

- `TcpStream::connect` (src/main.rs:51) is network I/O. It is replaced by the set of open ports (`open`, or `network(ip)` in `RunMain`). Refused, timed-out and unreachable connections are all "not open", as in the source.
- `thread::spawn`, the `mpsc` channel and the end of the receive loop when every sender is dropped (src/main.rs:75-89) are concurrency. The workers run one after another (`Spawn`), and the channel's delivery order is chosen by the `schedule` parameter. The drop barrier is modelled only as "the receive loop ends when nothing is left in flight".
- Report.Receive: states what `out` holds as a multiset, not that each worker's messages arrive in the order that worker sent them. Sorting makes that order irrelevant to the report.
- The parsers `IpAddr::from_str` and `str::parse::<u16>` (src/main.rs:38-39, 43) are in the standard library, which is not part of this model. They are function parameters.
- Printing is not modelled: the usage text, the `.` progress marks and `flush`, "Scan complete!", the `Port N is open` lines and `eprintln!` (src/main.rs:25-30, 52-53, 68, 91-94). `process::exit` and `env::args` (src/main.rs:61, 66-69) are replaced by the `Outcome` of `RunMain` and its `args` parameter.
- Report.SortInPlace: `out.sort()` is the standard library's stable sort; it is modelled by an insertion sort with the same result (ordered, and a permutation). `out` is a sequence that is copied into an array for the sort.
- The wrap-around of `port += num_threads` in release builds (src/main.rs:56) is not modelled. `Scan` uses an unbounded `port` with the intended bound 65535. The debug-build overflow is modelled only as the `OverflowPanic` outcome of `AsWrittenStep` (see Findings).
- Report.RunMain: requires at least one token, because `main` reads `args[0]` (src/main.rs:62) before resolving; with no tokens the source panics.
