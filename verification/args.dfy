/**
 * The command line of the first renderer (`args.rs`): the same defaults and checks as the later
 * one, without a scene or a verbose flag, and a usage text whose `{bin}` placeholder is replaced
 * by the program's name.
 */
module CliArgs {
  import opened Wrappers
  import LibArgs

  /**
   * The lines of the usage text after its placeholder, each cut into pieces short enough for
   * the verifier to read character by character.
   */
  const UsageLine: string := " [-t|--threads n] [-w|--width w]" + " [-s|--samples s]\n"
  const UsageCont: string := "          [-r|--seed r]" + " [-o|--output filename]\n"
  const Blank: string := "\n"
  const ThreadsLine: string := "  -t, --threads n:       " + "number of threads." + " default: number of logical processors\n"
  const WidthLine: string := "  -w, --width w:         " + "width of image in pixels." + " default: 600\n"
  const SamplesLine: string := "  -s, --samples s:       " + "number of samples per pixel." + " default: 100\n"
  const DepthLine: string := "  -d, --depth d:         " + "maximum bounces per ray." + " default: 50\n"
  const SeedLine: string := "  -r, --seed r:          " + "random number seed." + " default: entropy from the OS\n"
  const OutputLine: string := "  -o, --output filename: " + "file to output PPM image to." + " default: stdout\n"

  /** The usage text after its placeholder. */
  const HelpTail: string :=
    UsageLine + UsageCont + Blank + ThreadsLine + WidthLine + SamplesLine + DepthLine + SeedLine + OutputLine

  const Placeholder: string := "{bin}"

  /** `HELP`. */
  const HelpText: string := Usage + (Placeholder + HelpTail)

  const Usage: string := "usage: "

  /**
   * `str::replace`: every occurrence of `pat`, found from left to right without overlaps, is
   * replaced by `sub`; the inserted text is not searched again.
   */
  function Replace(s: string, pat: string, sub: string): string
    requires |pat| > 0
    decreases |s|
  {
    if |s| < |pat| then s
    else if s[..|pat|] == pat then sub + Replace(s[|pat|..], pat, sub)
    else [s[0]] + Replace(s[1..], pat, sub)
  }

  /** Text without the first character of the pattern has nothing to replace. */
  lemma {:induction false} ReplaceAbsent(s: string, pat: string, sub: string)
    requires |pat| > 0 && pat[0] !in s
    ensures Replace(s, pat, sub) == s
    decreases |s|
  {
    if |pat| <= |s| {
      assert s[..|pat|][0] == s[0];
      assert s[1..] == s[|s| - (|s| - 1)..];
      assert pat[0] !in s[1..] by {
        assert forall c | c in s[1..] :: c in s;
      }
      ReplaceAbsent(s[1..], pat, sub);
    }
  }

  /** A prefix without the pattern's first character passes through, and the search goes on after it. */
  lemma {:induction false} ReplaceAfter(u: string, s: string, pat: string, sub: string)
    requires |pat| > 0 && pat[0] !in u
    ensures Replace(u + s, pat, sub) == u + Replace(s, pat, sub)
    decreases |u|
  {
    if u == [] {
      assert u + s == s;
    } else {
      var us := u + s;
      assert u == [u[0]] + u[1..];
      assert us[0] == u[0] && us[1..] == u[1..] + s;
      assert pat[0] !in u[1..] by {
        assert forall c | c in u[1..] :: c in u;
      }
      ReplaceAfter(u[1..], s, pat, sub);
      if |us| < |pat| {
        assert Replace(s, pat, sub) == s;
      } else {
        assert us[..|pat|] != pat by {
          assert us[..|pat|][0] == u[0];
        }
        assert Replace(us, pat, sub) == [u[0]] + Replace(u[1..] + s, pat, sub);
      }
    }
  }

  /** An occurrence at the front is replaced, and the search resumes right after it. */
  lemma ReplaceFront(s: string, pat: string, sub: string)
    requires |pat| > 0
    ensures Replace(pat + s, pat, sub) == sub + Replace(s, pat, sub)
  {
    assert (pat + s)[..|pat|] == pat && (pat + s)[|pat|..] == s;
  }

  /** No line of the usage text after the placeholder holds a brace. */
  lemma HelpTailPlain()
    ensures '{' !in HelpTail
  {
    PlainUsageLine();
    PlainUsageCont();
    PlainBlank();
    PlainThreadsLine();
    PlainWidthLine();
    PlainSamplesLine();
    PlainDepthLine();
    PlainSeedLine();
    PlainOutputLine();
  }

  lemma PlainUsageLine() ensures '{' !in UsageLine { }
  lemma PlainUsageCont() ensures '{' !in UsageCont { }
  lemma PlainBlank() ensures '{' !in Blank { }
  lemma PlainThreadsLine() ensures '{' !in ThreadsLine { }
  lemma PlainWidthLine() ensures '{' !in WidthLine { }
  lemma PlainSamplesLine() ensures '{' !in SamplesLine { }
  lemma PlainDepthLine() ensures '{' !in DepthLine { }
  lemma PlainSeedLine() ensures '{' !in SeedLine { }
  lemma PlainOutputLine() ensures '{' !in OutputLine { }

  /**
   * `show_help`: the usage text with the program's name in place of `{bin}`. The name is
   * inserted once, as it is, even when it contains `{bin}` itself.
   */
  function ShowHelp(bin: string): (text: string)
    ensures text == "usage: " + bin + HelpTail
  {
    HelpTailPlain();
    PlainUsage();
    ReplaceOnce(Usage, HelpTail, Placeholder, bin);
    Replace(HelpText, Placeholder, bin)
  }

  lemma PlainUsage() ensures '{' !in Usage { }

  /** A text holding the pattern exactly once, between two parts without its first character. */
  lemma ReplaceOnce(u: string, tail: string, pat: string, sub: string)
    requires |pat| > 0 && pat[0] !in u && pat[0] !in tail
    ensures Replace(u + (pat + tail), pat, sub) == u + sub + tail
  {
    ReplaceAfter(u, pat + tail, pat, sub);
    ReplaceFront(tail, pat, sub);
    ReplaceAbsent(tail, pat, sub);
  }

  /** What the argument library reports for one invocation. */
  datatype Command = Command(
    help: bool,
    threads: LibArgs.Lookup<nat>, width: LibArgs.Lookup<nat>, samples: LibArgs.Lookup<nat>,
    depth: LibArgs.Lookup<nat>, seed: LibArgs.Lookup<nat>, output: LibArgs.Lookup<string>,
    rest: seq<string>)

  /** `Args`. */
  datatype Args = Args(threads: nat, width: nat, samples: nat, depth: nat, seed: nat, output: Option<string>)

  /** `Error`: no entropy error here, since a failure to get entropy panics. */
  datatype Error = PicoError(value: string, cause: string) | UnrecognizedArguments(rest: seq<string>)

  datatype Outcome = Help | Run(args: Args)

  /** `opt_value_from_str(..)?`, with the library's error carried over. */
  function Read<T>(l: LibArgs.Lookup<T>): Result<Option<T>, Error> {
    match l
    case Absent => Ok(None)
    case Given(v) => Ok(Some(v))
    case Invalid(text, cause) => Err(PicoError(text, cause))
  }

  function Or<T>(v: Option<T>, default: T): T {
    if v.Some? then v.value else default
  }

  /**
   * `parse`: the options are read in the order of the fields of `Args`, the first that fails is
   * the error, and the values are then checked: a thread count of zero first, then an empty
   * output name, then anything left over. An accepted command has threads, an output name that
   * is not empty when given, and nothing left over.
   */
  function Parse(cmd: Command, cores: nat, entropy: nat): (r: Result<Outcome, Error>)
    ensures cmd.help ==> r == Ok(Help)
    ensures r.Ok? && r.value.Run? ==>
      r.value.args.threads > 0 && r.value.args.output != Some("") && cmd.rest == []
  {
    if cmd.help then Ok(Help)
    else
      var threads :- Read(cmd.threads);
      var width :- Read(cmd.width);
      var samples :- Read(cmd.samples);
      var depth :- Read(cmd.depth);
      var seed :- Read(cmd.seed);
      var output :- Read(cmd.output);
      var args := Args(Or(threads, cores), Or(width, 600), Or(samples, 100), Or(depth, 50),
                       Or(seed, entropy), output);
      if args.threads == 0 then Err(PicoError("0", "number of threads must be nonzero"))
      else if output == Some("") then Err(PicoError("", "output filename must not be empty"))
      else if cmd.rest != [] then Err(UnrecognizedArguments(cmd.rest))
      else Ok(Run(args))
  }

  /** The same invocation, as the later renderer would see it: no scene, no verbose flag. */
  function Later(cmd: Command): LibArgs.Command {
    LibArgs.Command(cmd.help, cmd.threads, cmd.width, cmd.samples, cmd.depth, cmd.seed, cmd.output,
                    false, LibArgs.Absent, cmd.rest)
  }

  function LaterError(e: Error): LibArgs.Error {
    match e
    case PicoError(v, c) => LibArgs.PicoError(v, c)
    case UnrecognizedArguments(rest) => LibArgs.UnrecognizedArguments(rest)
  }

  /**
   * The later renderer kept this parser: with entropy at hand, it accepts the same commands with
   * the same values (and the weekend scene, quietly), and refuses the others with the same error.
   */
  lemma SameAsLater(cmd: Command, cores: nat, entropy: nat)
    ensures var r, l := Parse(cmd, cores, entropy), LibArgs.Parse(Later(cmd), cores, Some(entropy));
      (r == Ok(Help) <==> l == Ok(LibArgs.Help)) &&
      (r.Err? <==> l.Err?) &&
      (r.Err? ==> l.error == LaterError(r.error)) &&
      (r.Ok? && r.value.Run? ==>
         l.Ok? && l.value.Run? &&
         l.value.args == LibArgs.Args(r.value.args.threads, r.value.args.width, r.value.args.samples,
                                      r.value.args.depth, r.value.args.seed, r.value.args.output,
                                      LibArgs.Weekend, false))
  {
  }

  /** Without options: 600 pixels wide, 100 samples, 50 bounces, every processor, the entropy seed. */
  lemma ParseDefaults(cores: nat, seed: nat)
    requires cores > 0
    ensures Parse(Command(false, LibArgs.Absent, LibArgs.Absent, LibArgs.Absent, LibArgs.Absent,
                          LibArgs.Absent, LibArgs.Absent, []), cores, seed)
      == Ok(Run(Args(cores, 600, 100, 50, seed, None)))
  {
  }
}
