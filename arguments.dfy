/** The argument resolver `Arguments::new` of src/main.rs and the exit-code
    decision that `main` takes on its result.

    The standard-library parsers `IpAddr::from_str` and `str::parse::<u16>`
    are not part of this model: they are passed in as partial functions
    (`None` is a parse failure), so every property below holds for all
    parsers. */
module Arguments {
  import opened Base

  /** A resolved target: an address and a worker count. */
  datatype Arguments<Ip> = Arguments(ipaddr: Ip, threads: u16)

  /** `Result<Arguments, &'static str>`: the help request is the error string "help". */
  datatype Result<Ip> = Ok(value: Arguments<Ip>) | Err(error: string)

  const NotEnough: string := "Not enough arguments. Use -h or -help for usage instructions."
  const TooMany: string := "Too many arguments."
  const HelpSentinel: string := "help"
  const JUsage: string := "Usage: -j <num_threads> <IP>"
  const BadThreads: string := "Invalid thread count"
  const BadIp: string := "Invalid IP address"

  /** The default worker count when no `-j` is given. */
  const DefaultThreads: u16 := 4

  /** True when the token asks for the usage text. */
  predicate IsHelpFlag(t: string) {
    t == "-h" || t == "-help"
  }

  /** `Arguments::new(args)`; `args[0]` is the program name. The checks run in the
      source's order: count too small, count too large, help flag, `-j` form,
      bare address. */
  function Resolve<Ip>(args: seq<string>, parseIp: string -> Option<Ip>,
                       parseU16: string -> Option<u16>): (r: Result<Ip>)
    ensures r.Ok? ==> 2 <= |args| <= 4 && !IsHelpFlag(args[1])
    ensures r.Ok? && args[1] != "-j" ==> r.value.threads == DefaultThreads
    ensures r.Err? ==> r.error in {NotEnough, TooMany, HelpSentinel, JUsage, BadThreads, BadIp}
  {
    if |args| < 2 then Err(NotEnough)
    else if |args| > 4 then Err(TooMany)
    else if IsHelpFlag(args[1]) then Err(HelpSentinel)
    else if args[1] == "-j" then
      if |args| != 4 then Err(JUsage)
      else match parseU16(args[2])
        case None => Err(BadThreads)
        case Some(threads) =>
          match parseIp(args[3])
          case None => Err(BadIp)
          case Some(ip) => Ok(Arguments(ip, threads))
    else
      match parseIp(args[1])
      case None => Err(BadIp)
      case Some(ip) => Ok(Arguments(ip, DefaultThreads))
  }

  /** What `main` does with the resolver's result: `Some(code)` is the process
      exit code (help exits 0, every other error 1), `None` means the scan runs. */
  function ExitCode<Ip>(r: Result<Ip>): (code: Option<int>)
    ensures code == None <==> r.Ok?
    ensures code == Some(0) <==> r.Err? && r.error == HelpSentinel
    ensures code == Some(1) <==> r.Err? && r.error != HelpSentinel
  {
    match r
    case Ok(_) => None
    case Err(e) => if e == HelpSentinel then Some(0) else Some(1)
  }

  /** The error messages are pairwise distinct, so the help sentinel cannot be
      confused with a real error. */
  lemma MessagesDistinct()
    ensures HelpSentinel !in {NotEnough, TooMany, JUsage, BadThreads, BadIp}
    ensures |{NotEnough, TooMany, HelpSentinel, JUsage, BadThreads, BadIp}| == 6
  {
  }

  /** The argument count is checked before anything else: fewer than two tokens
      and more than four tokens are errors whatever the tokens are. */
  lemma CountCheckedFirst<Ip>(args: seq<string>, parseIp: string -> Option<Ip>,
                             parseU16: string -> Option<u16>)
    ensures |args| < 2 ==> Resolve(args, parseIp, parseU16) == Err(NotEnough)
    ensures |args| > 4 ==> Resolve(args, parseIp, parseU16) == Err(TooMany)
  {
  }

  /** A help flag in position 1 gives the help sentinel, and exit code 0,
      exactly when the count is in 2..4, whatever follows it. */
  lemma HelpIff<Ip>(args: seq<string>, parseIp: string -> Option<Ip>,
                    parseU16: string -> Option<u16>)
    ensures Resolve(args, parseIp, parseU16) == Err(HelpSentinel)
            <==> 2 <= |args| <= 4 && IsHelpFlag(args[1])
    ensures ExitCode(Resolve(args, parseIp, parseU16)) == Some(0)
            <==> 2 <= |args| <= 4 && IsHelpFlag(args[1])
  {
    MessagesDistinct();
  }

  /** The `-j` form: arity first, then the thread count, then the address. */
  lemma JFlag<Ip>(args: seq<string>, parseIp: string -> Option<Ip>,
                  parseU16: string -> Option<u16>)
    requires 2 <= |args| <= 4 && args[1] == "-j"
    ensures |args| != 4 ==> Resolve(args, parseIp, parseU16) == Err(JUsage)
    ensures |args| == 4 && parseU16(args[2]).None? ==>
              Resolve(args, parseIp, parseU16) == Err(BadThreads)
    ensures |args| == 4 && parseU16(args[2]).Some? && parseIp(args[3]).None? ==>
              Resolve(args, parseIp, parseU16) == Err(BadIp)
    ensures |args| == 4 && parseU16(args[2]).Some? && parseIp(args[3]).Some? ==>
              Resolve(args, parseIp, parseU16)
                == Ok(Arguments(parseIp(args[3]).value, parseU16(args[2]).value))
  {
  }

  /** Any other first token is read as the address, with four workers; tokens
      2 and 3 are ignored. */
  lemma BareAddress<Ip>(args: seq<string>, parseIp: string -> Option<Ip>,
                        parseU16: string -> Option<u16>)
    requires 2 <= |args| <= 4 && !IsHelpFlag(args[1]) && args[1] != "-j"
    ensures Resolve(args, parseIp, parseU16)
            == match parseIp(args[1])
               case None => Err(BadIp)
               case Some(ip) => Ok(Arguments(ip, DefaultThreads))
    ensures forall rest: seq<string> :: |rest| <= 2 ==>
              Resolve(args[..2] + rest, parseIp, parseU16) == Resolve(args, parseIp, parseU16)
  {
    forall rest: seq<string> | |rest| <= 2
      ensures Resolve(args[..2] + rest, parseIp, parseU16) == Resolve(args, parseIp, parseU16)
    {
      assert (args[..2] + rest)[1] == args[1];
    }
  }

  /** The thread count parse failure is reported even when the address is also
      invalid: the thread check comes first. */
  lemma ThreadsBeforeAddress<Ip>(args: seq<string>, parseIp: string -> Option<Ip>,
                                 parseU16: string -> Option<u16>)
    requires |args| == 4 && args[1] == "-j"
    requires parseU16(args[2]).None? && parseIp(args[3]).None?
    ensures Resolve(args, parseIp, parseU16) == Err(BadThreads)
  {
  }

  /** A successful resolution is characterised by its tokens: the address is
      the last token of a `-j` form that parses, or token 1 otherwise. */
  lemma OkIff<Ip>(args: seq<string>, parseIp: string -> Option<Ip>,
                  parseU16: string -> Option<u16>, a: Arguments<Ip>)
    ensures Resolve(args, parseIp, parseU16) == Ok(a) <==>
      2 <= |args| <= 4 && !IsHelpFlag(args[1]) &&
      (if args[1] == "-j"
       then |args| == 4 && parseU16(args[2]) == Some(a.threads) && parseIp(args[3]) == Some(a.ipaddr)
       else parseIp(args[1]) == Some(a.ipaddr) && a.threads == DefaultThreads)
  {
  }
}
