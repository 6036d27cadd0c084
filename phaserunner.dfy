/**
 * The configuration of a `Phaserunner::Modbus` object: the defaults it ships
 * with, the merge of caller options over them, and the register dictionary
 * it holds.
 */
module Phaserunner {
  import opened Results

  /** One entry of the register dictionary. Only `name` and `units` are read. */
  datatype RegisterMeta = RegisterMeta(name: string, units: string)

  /** The register dictionary: register address to its metadata. */
  type Dictionary = map<int, RegisterMeta>

  /** `loop_count`: the symbol `:forever` or a number of iterations. */
  datatype LoopCount = Forever | Times(n: int)

  /** The merged options, one field per key of `DEFAULTS`. */
  datatype Config = Config(
    tty: string,
    baudrate: int,
    slaveId: int,
    dictionaryFile: string,
    loopCount: LoopCount,
    quiet: bool,
    registersStartAddress: int,
    registersCount: int,
    registersMisc: seq<int>)

  /** Caller options: a key that is absent is `None`. */
  datatype Options = Options(
    tty: Option<string>,
    baudrate: Option<int>,
    slaveId: Option<int>,
    dictionaryFile: Option<string>,
    loopCount: Option<LoopCount>,
    quiet: Option<bool>,
    registersStartAddress: Option<int>,
    registersCount: Option<int>,
    registersMisc: Option<seq<int>>)

  /** An options hash with no keys at all. */
  function NoOptions(): Options {
    Options(None, None, None, None, None, None, None, None, None)
  }

  /**
   * `DEFAULTS`. `bodPath` is the dictionary path the external `asi_bod` gem
   * reports as its default file.
   */
  function Defaults(bodPath: string): (d: Config)
    ensures d.tty == "/dev/ttyUSB0" && d.baudrate == 115200 && d.slaveId == 1
    ensures d.loopCount == Forever && !d.quiet
    ensures d.registersStartAddress == 258 && d.registersCount == 12
    ensures d.registersMisc == [277, 334]
    ensures d.dictionaryFile == bodPath
  {
    Config("/dev/ttyUSB0", 115200, 1, bodPath, Forever, false, 258, 12, [277, 334])
  }

  /**
   * `DEFAULTS.merge opts`: every key present in `opts` overrides its default,
   * every absent key keeps it.
   */
  function Resolve(opts: Options, bodPath: string): (c: Config)
    ensures opts.tty.Some? ==> c.tty == opts.tty.value
    ensures opts.tty.None? ==> c.tty == Defaults(bodPath).tty
    ensures opts.baudrate.Some? ==> c.baudrate == opts.baudrate.value
    ensures opts.baudrate.None? ==> c.baudrate == Defaults(bodPath).baudrate
    ensures opts.slaveId.Some? ==> c.slaveId == opts.slaveId.value
    ensures opts.slaveId.None? ==> c.slaveId == Defaults(bodPath).slaveId
    ensures opts.dictionaryFile.Some? ==> c.dictionaryFile == opts.dictionaryFile.value
    ensures opts.dictionaryFile.None? ==> c.dictionaryFile == bodPath
    ensures opts.loopCount.Some? ==> c.loopCount == opts.loopCount.value
    ensures opts.loopCount.None? ==> c.loopCount == Forever
    ensures opts.quiet.Some? ==> c.quiet == opts.quiet.value
    ensures opts.quiet.None? ==> !c.quiet
    ensures opts.registersStartAddress.Some? ==> c.registersStartAddress == opts.registersStartAddress.value
    ensures opts.registersStartAddress.None? ==> c.registersStartAddress == 258
    ensures opts.registersCount.Some? ==> c.registersCount == opts.registersCount.value
    ensures opts.registersCount.None? ==> c.registersCount == 12
    ensures opts.registersMisc.Some? ==> c.registersMisc == opts.registersMisc.value
    ensures opts.registersMisc.None? ==> c.registersMisc == [277, 334]
  {
    var d := Defaults(bodPath);
    Config(
      opts.tty.GetOr(d.tty),
      opts.baudrate.GetOr(d.baudrate),
      opts.slaveId.GetOr(d.slaveId),
      opts.dictionaryFile.GetOr(d.dictionaryFile),
      opts.loopCount.GetOr(d.loopCount),
      opts.quiet.GetOr(d.quiet),
      opts.registersStartAddress.GetOr(d.registersStartAddress),
      opts.registersCount.GetOr(d.registersCount),
      opts.registersMisc.GetOr(d.registersMisc))
  }

  /** Without options every attribute takes its default. */
  lemma ResolveNoOptions(bodPath: string)
    ensures Resolve(NoOptions(), bodPath) == Defaults(bodPath)
  {
  }

  /** Options that name every key leave no default in place. */
  lemma ResolveFullOptions(c: Config, bodPath: string)
    ensures Resolve(Given(c), bodPath) == c
  {
  }

  /** The options hash that sets every key to the value it has in `c`. */
  function Given(c: Config): Options {
    Options(Some(c.tty), Some(c.baudrate), Some(c.slaveId), Some(c.dictionaryFile),
            Some(c.loopCount), Some(c.quiet), Some(c.registersStartAddress),
            Some(c.registersCount), Some(c.registersMisc))
  }

  /** A `Phaserunner::Modbus` object: its attributes and its dictionary. */
  datatype Modbus = Modbus(config: Config, dict: Dictionary)

  /** How the serial client is opened: device, speed and the slave addressed. */
  datatype Link = Link(tty: string, baudrate: int, slaveId: int)

  /** The settings `read_raw_range` opens its client with. */
  function LinkOf(mb: Modbus): Link {
    Link(mb.config.tty, mb.config.baudrate, mb.config.slaveId)
  }

  /**
   * `Modbus.new(opts)`: merge the options, then load the dictionary from the
   * resolved `dictionary_file`. `load` is the external loader.
   */
  function New(opts: Options, bodPath: string, load: string -> Dictionary): (mb: Modbus)
    ensures mb.config == Resolve(opts, bodPath)
    ensures opts.dictionaryFile.Some? ==> mb.dict == load(opts.dictionaryFile.value)
    ensures opts.dictionaryFile.None? ==> mb.dict == load(bodPath)
  {
    var c := Resolve(opts, bodPath);
    Modbus(c, load(c.dictionaryFile))
  }

  /**
   * A new object talks to the caller's device, speed and slave id where
   * given, and otherwise to the shipped ones.
   */
  lemma NewLink(opts: Options, bodPath: string, load: string -> Dictionary)
    ensures var l := LinkOf(New(opts, bodPath, load));
      && l.tty == (if opts.tty.Some? then opts.tty.value else Defaults(bodPath).tty)
      && l.baudrate == (if opts.baudrate.Some? then opts.baudrate.value else Defaults(bodPath).baudrate)
      && l.slaveId == (if opts.slaveId.Some? then opts.slaveId.value else Defaults(bodPath).slaveId)
  {
  }
}
