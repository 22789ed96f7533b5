/**
 * The command line of the later renderer (`lib/args.rs`): the scene names, the defaults, and the
 * checks run after every option has been read.
 *
 * The option lookups of the argument library are seen through their answers: each option is
 * absent, given with a value that parsed, or given with one that did not. What the library
 * leaves over after the lookups, the processor count and the operating system's entropy are
 * parameters too.
 */
module LibArgs {
  import opened Wrappers

  /** `WhichScene`. */
  datatype Scene = Weekend | Gay | Tuesday | Perlin | Earth | Cornell | Bisexual

  /** The name each scene is selected by on the command line. */
  function Name(w: Scene): string {
    match w
    case Weekend => "weekend"
    case Gay => "gay"
    case Tuesday => "tuesday"
    case Perlin => "perlin"
    case Earth => "earth"
    case Cornell => "cornell"
    case Bisexual => "bisexual"
  }

  /**
   * `WhichScene::from_str`: a scene name selects its scene, and anything else is refused with a
   * message that quotes the input.
   */
  function FromStr(s: string): (r: Result<Scene, string>)
    ensures r.Ok? ==> Name(r.value) == s
    ensures r.Err? ==> r.error == "unknown scene: " + s
  {
    if s == "weekend" then Ok(Weekend)
    else if s == "gay" then Ok(Gay)
    else if s == "tuesday" then Ok(Tuesday)
    else if s == "perlin" then Ok(Perlin)
    else if s == "earth" then Ok(Earth)
    else if s == "cornell" then Ok(Cornell)
    else if s == "bisexual" then Ok(Bisexual)
    else Err("unknown scene: " + s)
  }

  /**
   * Every scene is selected by its own name, so no two scenes share a name, and a string is
   * accepted exactly when it is the name of some scene.
   */
  lemma FromStrRoundTrip(w: Scene, v: Scene, s: string)
    ensures FromStr(Name(w)) == Ok(w)
    ensures Name(v) == Name(w) ==> v == w
    ensures FromStr(s).Ok? <==> exists u :: Name(u) == s
  {
    NameSelects(w);
    NameSelects(v);
    if exists u :: Name(u) == s {
      var u :| Name(u) == s;
      NameSelects(u);
    }
  }

  /** A scene's name selects that scene. */
  lemma NameSelects(w: Scene)
    ensures FromStr(Name(w)) == Ok(w)
  {
    match w
    case Weekend =>
    case Gay =>
    case Tuesday =>
    case Perlin =>
    case Earth =>
    case Cornell =>
    case Bisexual =>
  }

  /** The answer of one option lookup. */
  datatype Lookup<T> = Absent | Given(value: T) | Invalid(text: string, cause: string)

  /** What the argument library reports for one invocation. */
  datatype Command = Command(
    help: bool,
    threads: Lookup<nat>, width: Lookup<nat>, samples: Lookup<nat>, depth: Lookup<nat>,
    seed: Lookup<nat>, output: Lookup<string>, verbose: bool, scene: Lookup<string>,
    rest: seq<string>)

  /** `Args`. */
  datatype Args = Args(threads: nat, width: nat, samples: nat, depth: nat, seed: nat,
                       output: Option<string>, scene: Scene, verbose: bool)

  /** `Error`; an argument-library error is its offending text and the reason. */
  datatype Error = PicoError(value: string, cause: string) | UnrecognizedArguments(rest: seq<string>) | GetrandomError

  /** `--help` prints the usage and exits before anything else is read. */
  datatype Outcome = Help | Run(args: Args)

  /** `opt_value_from_str(..)?.unwrap_or(default)`. */
  function Value<T>(l: Lookup<T>, default: T): (r: Result<T, Error>)
  {
    match l
    case Absent => Ok(default)
    case Given(v) => Ok(v)
    case Invalid(text, cause) => Err(PicoError(text, cause))
  }

  /** `opt_value_from_str(..)?` for an option without a default. */
  function Optional<T>(l: Lookup<T>): (r: Result<Option<T>, Error>)
  {
    match l
    case Absent => Ok(None)
    case Given(v) => Ok(Some(v))
    case Invalid(text, cause) => Err(PicoError(text, cause))
  }

  /** The seed: the one given, else eight bytes of entropy, whose failure is an error. */
  function SeedOf(l: Lookup<nat>, entropy: Option<nat>): (r: Result<nat, Error>)
  {
    match l
    case Given(v) => Ok(v)
    case Invalid(text, cause) => Err(PicoError(text, cause))
    case Absent => if entropy.Some? then Ok(entropy.value) else Err(GetrandomError)
  }

  /** The scene option, read through `from_str`; a refused name is reported like a bad value. */
  function SceneOf(l: Lookup<string>): (r: Result<Scene, Error>)
    ensures l.Absent? ==> r == Ok(Weekend)
    ensures l.Given? ==> (r.Ok? <==> FromStr(l.value).Ok?)
    ensures l.Given? && r.Ok? ==> Name(r.value) == l.value
    ensures l.Given? && r.Err? ==> r.error == PicoError(l.value, "unknown scene: " + l.value)
    ensures l.Invalid? ==> r == Err(PicoError(l.text, l.cause))
  {
    match l
    case Absent => Ok(Weekend)
    case Invalid(text, cause) => Err(PicoError(text, cause))
    case Given(s) =>
      match FromStr(s)
      case Ok(w) => Ok(w)
      case Err(msg) => Err(PicoError(s, msg))
  }

  const ThreadsError := PicoError("0", "number of threads must be nonzero")
  const OutputError := PicoError("", "output filename must not be empty")

  /**
   * `parse`: the options are read in the order of the fields of `Args`, the first that fails is
   * the error, and the values read are then checked: a thread count of zero first, then an
   * empty output name, then anything left over. An accepted command has threads, an output
   * name that is not empty when given, and nothing left over.
   */
  function Parse(cmd: Command, cores: nat, entropy: Option<nat>): (r: Result<Outcome, Error>)
    ensures cmd.help ==> r == Ok(Help)
    ensures r.Ok? && r.value.Run? ==>
      r.value.args.threads > 0 && r.value.args.output != Some("") && cmd.rest == []
    ensures r.Ok? && r.value.Run? ==> r.value.args.verbose == cmd.verbose
  {
    if cmd.help then Ok(Help)
    else
      var threads :- Value(cmd.threads, cores);
      var width :- Value(cmd.width, 600);
      var samples :- Value(cmd.samples, 100);
      var depth :- Value(cmd.depth, 50);
      var seed :- SeedOf(cmd.seed, entropy);
      var output :- Optional(cmd.output);
      var scene :- SceneOf(cmd.scene);
      var args := Args(threads, width, samples, depth, seed, output, scene, cmd.verbose);
      if threads == 0 then Err(ThreadsError)
      else if output == Some("") then Err(OutputError)
      else if cmd.rest != [] then Err(UnrecognizedArguments(cmd.rest))
      else Ok(Run(args))
  }

  /** No option lookup fails, and the seed is at hand. */
  predicate ReadsCleanly(cmd: Command, entropy: Option<nat>) {
    !cmd.threads.Invalid? && !cmd.width.Invalid? && !cmd.samples.Invalid? && !cmd.depth.Invalid? &&
    SeedOf(cmd.seed, entropy).Ok? && !cmd.output.Invalid? && SceneOf(cmd.scene).Ok?
  }

  /** The value of an option that parsed, or its default. */
  function Or<T>(l: Lookup<T>, default: T): T
    requires !l.Invalid?
  {
    if l.Given? then l.value else default
  }

  /**
   * Without options the renderer draws the weekend scene, 600 pixels wide, with 100 samples
   * per pixel and 50 bounces, on every processor, with a seed from the operating system, and
   * logs only when asked to.
   */
  lemma ParseDefaults(cores: nat, seed: nat, verbose: bool)
    requires cores > 0
    ensures Parse(Command(false, Absent, Absent, Absent, Absent, Absent, Absent, verbose, Absent, []), cores, Some(seed))
      == Ok(Run(Args(cores, 600, 100, 50, seed, None, Weekend, verbose)))
  {
  }

  /**
   * A command is accepted exactly when help is not asked for, every option reads cleanly, the
   * thread count is not zero, the output name is not empty and nothing is left over; the
   * arguments are then the values given, or the defaults.
   */
  lemma ParseAccepts(cmd: Command, cores: nat, entropy: Option<nat>)
    ensures Parse(cmd, cores, entropy).Ok? && Parse(cmd, cores, entropy).value.Run? <==>
      !cmd.help && ReadsCleanly(cmd, entropy) && Or(cmd.threads, cores) != 0 &&
      cmd.output != Given("") && cmd.rest == []
    ensures Parse(cmd, cores, entropy).Ok? && Parse(cmd, cores, entropy).value.Run? ==>
      ReadsCleanly(cmd, entropy) &&
      Parse(cmd, cores, entropy).value.args ==
        Args(Or(cmd.threads, cores), Or(cmd.width, 600), Or(cmd.samples, 100), Or(cmd.depth, 50),
             SeedOf(cmd.seed, entropy).value, Optional(cmd.output).value,
             SceneOf(cmd.scene).value, cmd.verbose)
  {
  }

  /**
   * Once every option has been read, the checks come in a fixed order: a zero thread count is
   * reported whatever else is wrong, an empty output name whatever is left over, and leftover
   * arguments only when both other checks pass.
   */
  lemma ValidationOrder(cmd: Command, cores: nat, entropy: Option<nat>)
    requires !cmd.help && ReadsCleanly(cmd, entropy)
    ensures Or(cmd.threads, cores) == 0 ==> Parse(cmd, cores, entropy) == Err(ThreadsError)
    ensures Or(cmd.threads, cores) != 0 && cmd.output == Given("") ==>
      Parse(cmd, cores, entropy) == Err(OutputError)
    ensures Or(cmd.threads, cores) != 0 && cmd.output != Given("") && cmd.rest != [] ==>
      Parse(cmd, cores, entropy) == Err(UnrecognizedArguments(cmd.rest))
  {
  }

  /**
   * Reading comes before checking, and the first option that fails to read is the error: a bad
   * thread count hides everything after it, a missing seed hides a bad output name or scene,
   * and a refused scene name is reported only when everything before it read cleanly.
   */
  lemma FirstLookupErrorWins(cmd: Command, cores: nat, entropy: Option<nat>)
    requires !cmd.help
    ensures cmd.threads.Invalid? ==> Parse(cmd, cores, entropy) == Err(PicoError(cmd.threads.text, cmd.threads.cause))
    ensures (!cmd.threads.Invalid? && !cmd.width.Invalid? && !cmd.samples.Invalid? && !cmd.depth.Invalid? &&
             cmd.seed.Absent? && entropy.None?) ==> Parse(cmd, cores, entropy) == Err(GetrandomError)
    ensures (!cmd.threads.Invalid? && !cmd.width.Invalid? && !cmd.samples.Invalid? && !cmd.depth.Invalid? &&
             SeedOf(cmd.seed, entropy).Ok? && !cmd.output.Invalid? && cmd.scene.Given? &&
             FromStr(cmd.scene.value).Err?) ==>
      Parse(cmd, cores, entropy) == Err(PicoError(cmd.scene.value, "unknown scene: " + cmd.scene.value))
  {
  }
}
