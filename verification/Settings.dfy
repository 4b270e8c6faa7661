// Layered settings: what adding a line to them does, and which lines a set of files amounts to.
module Settings {
  datatype Option<T> = None | Some(value: T)

  const NAME_MAX := 255
  const VALUE_MAX := 1023
  const PROPMAP_GROUP := 1

  datatype Flags = Flags(reloadable: bool, unused: bool, nonEmpty: bool, exact: bool, size: bool, obsolete: bool,
      markDefault: bool)

  const NO_FLAGS := Flags(false, false, false, false, false, false, false)

  datatype Setting = Setting(flags: Flags, group: nat, value: string)

  // configsetting_t
  datatype Line = Line(name: string, value: string, flags: Flags, group: nat)

  // The LOADSETTING_ flags
  datatype Load = Load(initializing: bool, unknown: bool, overwrite: bool, group: bool, reload: bool, cmdline: bool,
      markDefault: bool)

  const LOAD := Load(false, false, true, false, false, false, false)
  const RELOAD := Load(false, false, false, false, true, false, false)
  const PROPMAP := Load(false, true, false, true, false, false, false)
  const CMDLINE := Load(false, false, true, false, false, true, false)
  const INITIALIZE := Load(true, true, true, false, false, false, false)

  datatype Message =
    | Deprecated(name: string, alias: string)
    | UnknownOption(name: string)
    | DifferentGroup(name: string)
    | NotOverridable(name: string)
    | Obsolete(name: string)
    | NoEffect(name: string)
    | NotInEnvironment(name: string)
    | NotASize(name: string)
    | EmptyOption(name: string)
    | CannotNormalize(file: string)
    | CannotRead(file: string)
    | NotAFile(file: string)
    | CannotOpen(file: string)
    | UnsupportedDirective(name: string)
    | UnknownDirective(name: string)

  datatype Config = Config(settings: map<string, Setting>, aliases: map<string, string>, errors: seq<Message>,
      warnings: seq<Message>)

  // What is asked of the system: the environment, and the numbers in texts.
  datatype Machine = Machine(env: string -> Option<string>, isNumber: string -> bool, sizeText: string -> string)

  function Cut(s: string, n: nat): string { if |s| <= n then s else s[..n] }

  // ---------------------------------------------------------------------------
  // Adding one line

  predicate IsAlias(c: Config, name: string) { |name| <= NAME_MAX && name in c.aliases }

  function Resolve(c: Config, name: string): string {
    Cut(if IsAlias(c, name) then c.aliases[name] else name, NAME_MAX)
  }

  predicate Allowed(c: Config, line: Line, ls: Load) {
    var k := Resolve(c, line.name);
    if k !in c.settings then ls.unknown
    else if ls.group then c.settings[k].group == line.group
    else if ls.reload then c.settings[k].flags.reloadable
    else ls.overwrite
  }

  function FlagsFor(c: Config, line: Line, ls: Load): Flags {
    var k := Resolve(c, line.name);
    if k !in c.settings then line.flags
    else c.settings[k].flags.(reloadable := c.settings[k].flags.reloadable && !ls.cmdline)
  }

  predicate FromEnv(line: Line, flags: Flags) { line.value != "" && line.value[0] == '$' && !flags.exact }

  function Text(m: Machine, line: Line, flags: Flags): string {
    if FromEnv(line, flags) && m.env(line.value[1..]).Some? then m.env(line.value[1..]).value else line.value
  }

  predicate Sizable(m: Machine, line: Line, flags: Flags) { flags.size ==> m.isNumber(Text(m, line, flags)) }

  // A value out of the environment keeps the mark of the default, and only becomes a number if the
  // line itself says so.
  function NewSetting(m: Machine, line: Line, flags: Flags, ls: Load): Setting {
    var text := Text(m, line, flags);
    if FromEnv(line, flags) then
      Setting(flags, line.group, Cut(if line.flags.size then m.sizeText(text) else text, VALUE_MAX))
    else
      Setting(flags.(markDefault := ls.markDefault), line.group,
              Cut(if flags.size then m.sizeText(text) else text, VALUE_MAX))
  }

  predicate Accepted(m: Machine, c: Config, line: Line, ls: Load) {
    Allowed(c, line, ls) && Sizable(m, line, FlagsFor(c, line, ls))
  }

  function Refusals(c: Config, line: Line, ls: Load): seq<Message> {
    if Resolve(c, line.name) !in c.settings then [UnknownOption(line.name)]
    else if ls.group then [DifferentGroup(line.name)]
    else if ls.reload then []
    else [NotOverridable(line.name)]
  }

  function ErrorsOf(m: Machine, c: Config, line: Line, ls: Load): seq<Message> {
    if !Allowed(c, line, ls) then Refusals(c, line, ls)
    else if !Sizable(m, line, FlagsFor(c, line, ls)) then [NotASize(line.name)]
    else []
  }

  function AliasWarnings(c: Config, line: Line, ls: Load): seq<Message> {
    if IsAlias(c, line.name) && !ls.initializing then [Deprecated(line.name, c.aliases[line.name])] else []
  }

  function KnownWarnings(c: Config, line: Line, ls: Load): seq<Message> {
    var k := Resolve(c, line.name);
    if k in c.settings && Allowed(c, line, ls) && !ls.initializing then
      (if c.settings[k].flags.obsolete then [Obsolete(line.name)] else [])
      + (if c.settings[k].flags.unused then [NoEffect(line.name)] else [])
    else []
  }

  function EnvWarnings(m: Machine, line: Line, flags: Flags): seq<Message> {
    if FromEnv(line, flags) && m.env(line.value[1..]).None? then [NotInEnvironment(line.value[1..])] else []
  }

  function WarningsOf(m: Machine, c: Config, line: Line, ls: Load): seq<Message> {
    AliasWarnings(c, line, ls) + KnownWarnings(c, line, ls)
    + if Allowed(c, line, ls) then EnvWarnings(m, line, FlagsFor(c, line, ls)) else []
  }

  function Added(m: Machine, c: Config, line: Line, ls: Load): Config {
    Config(
      if Accepted(m, c, line, ls) then
        c.settings[Resolve(c, line.name) := NewSetting(m, line, FlagsFor(c, line, ls), ls)]
      else c.settings,
      c.aliases, c.errors + ErrorsOf(m, c, line, ls), c.warnings + WarningsOf(m, c, line, ls))
  }

  // ---------------------------------------------------------------------------
  // Reading files

  datatype File = File(regular: bool, readable: bool, lines: seq<string>)

  datatype Disk = Disk(realpath: string -> Option<string>, files: map<string, File>)

  datatype Item = Assign(line: Line, ls: Load) | Alias(line: Line) | Complain(error: Message) | Warn(warning: Message)

  // Thrown: std::out_of_range leaves the load.
  datatype Outcome = Yes | No | Thrown

  // What reading amounts to: its lines and complaints in order, the files read so far, the result.
  datatype Reading = Reading(items: seq<Item>, read: set<string>, outcome: Outcome)

  predicate IsBlank(c: char) { c == ' ' || c == '\t' || c == '\r' || c == '\n' }

  function TrimLeft(s: string): string { if s != "" && IsBlank(s[0]) then TrimLeft(s[1..]) else s }

  function TrimRight(s: string): string { if s != "" && IsBlank(s[|s| - 1]) then TrimRight(s[..|s| - 1]) else s }

  function Trim(s: string): string { TrimRight(TrimLeft(s)) }

  // The first place from i on where one of the characters is.
  function FindFrom(s: string, chars: string, i: nat): (r: Option<nat>)
    requires i <= |s|
    ensures r.Some? ==> i <= r.value < |s| && s[r.value] in chars
    decreases |s| - i
  {
    if i == |s| then None else if s[i] in chars then Some(i) else FindFrom(s, chars, i + 1)
  }

  function FindLast(s: string, c: char, n: nat): (r: Option<nat>)
    requires n <= |s|
    ensures r.Some? ==> r.value < n
  {
    if n == 0 then None else if s[n - 1] == c then Some(n - 1) else FindLast(s, c, n - 1)
  }

  // An include is looked for beside the file it is in.
  function IncludePath(args: string, cur: string): string {
    var value := Trim(args);
    if value != "" && value[0] == '/' then value
    else (match FindLast(cur, '/', |cur|) case Some(pos) => cur[..pos] case None => ".") + "/" + value
  }

  ghost function Unread(d: Disk, read: set<string>): nat { |d.files.Keys - read| }

  lemma {:induction false} UnreadShrinks(d: Disk, read: set<string>, more: set<string>)
    requires read <= more
    ensures Unread(d, more) <= Unread(d, read)
    ensures forall q :: q in d.files && q !in read && q in more ==> Unread(d, more) < Unread(d, read)
  {
    var a, b := d.files.Keys - read, d.files.Keys - more;
    assert a == b + (a - b) && b * (a - b) == {};
    forall q | q in d.files && q !in read && q in more
      ensures |b| < |a|
    {
      assert q in a - b;
    }
  }

  function ReadFile(d: Disk, dirs: set<string>, file: string, ls: Load, group: nat, read: set<string>): (r: Reading)
    ensures read <= r.read
    decreases Unread(d, read), 0
  {
    match d.realpath(file)
    case None => Reading([Complain(CannotNormalize(file))], read, No)
    case Some(q) =>
      if q !in d.files then Reading([Complain(CannotRead(file))], read, No)
      else if !d.files[q].regular then Reading([Complain(NotAFile(file))], read, No)
      else if q in read then Reading([], read, Yes)
      else
        UnreadShrinks(d, read, read + {q});
        if !d.files[q].readable then Reading([Complain(CannotOpen(file))], read + {q}, No)
        else ReadLines(d, dirs, d.files[q].lines, ls, group, q, read + {q})
  }

  function ReadLines(d: Disk, dirs: set<string>, lines: seq<string>, ls: Load, group: nat, cur: string,
      read: set<string>): (r: Reading)
    ensures read <= r.read
    decreases Unread(d, read), 3 + |lines|
  {
    if lines == [] then Reading([], read, Yes)
    else
      var first := ReadLine(d, dirs, lines[0], ls, group, cur, read);
      if first.outcome != Yes then first
      else
        UnreadShrinks(d, read, first.read);
        var rest := ReadLines(d, dirs, lines[1..], ls, group, cur, first.read);
        Reading(first.items + rest.items, rest.read, rest.outcome)
  }

  function ReadLine(d: Disk, dirs: set<string>, line: string, ls: Load, group: nat, cur: string,
      read: set<string>): (r: Reading)
    ensures read <= r.read
    decreases Unread(d, read), 2
  {
    if line != "" && line[0] == '!' then Directive(d, dirs, line, ls, cur, read)
    else Reading(PlainLine(line, ls, group), read, Yes)
  }

  // A line that is not a directive: a name and a value, or nothing.
  function PlainLine(line: string, ls: Load, group: nat): seq<Item> {
    if line == "" || line[0] == '#' then []
    else
      match FindFrom(line, "=", 0)
      case None => []
      case Some(pos) =>
        var name, value := Trim(line[..pos]), Trim(line[pos + 1..]);
        if name == "" then [] else [Assign(Line(name, value, NO_FLAGS, group), ls)]
  }

  function Directive(d: Disk, dirs: set<string>, line: string, ls: Load, cur: string, read: set<string>): (r: Reading)
    requires line != ""
    ensures read <= r.read
    decreases Unread(d, read), 1
  {
    var pos := FindFrom(line, " \t", 1);
    var name := if pos.Some? then line[1..pos.value] else line[1..];
    if name != "include" && name != "propmap" then Reading([Warn(UnknownDirective(name))], read, Yes)
    else if name !in dirs then Reading([Warn(UnsupportedDirective(name))], read, Yes)
    else if pos.None? then Reading([], read, Thrown)
    else if name == "include" then ReadFile(d, dirs, IncludePath(line[pos.value..], cur), ls, 0, read)
    else ReadFile(d, dirs, Trim(line[pos.value..]), PROPMAP, PROPMAP_GROUP, read)
  }

  function Applied(m: Machine, c: Config, item: Item): Config {
    match item
    case Assign(line, ls) => Added(m, c, line, ls)
    case Alias(line) => c.(aliases := c.aliases[Cut(line.name, NAME_MAX) := Cut(line.value, VALUE_MAX)])
    case Complain(e) => c.(errors := c.errors + [e])
    case Warn(w) => c.(warnings := c.warnings + [w])
  }

  function Run(m: Machine, c: Config, items: seq<Item>): Config
    decreases |items|
  {
    if items == [] then c else Run(m, Applied(m, c, items[0]), items[1..])
  }

  lemma {:induction false} RunAppend(m: Machine, c: Config, a: seq<Item>, b: seq<Item>)
    ensures Run(m, c, a + b) == Run(m, Run(m, c, a), b)
    decreases |a|
  {
    if a == [] {
      assert a + b == b;
    } else {
      assert (a + b)[1..] == a[1..] + b;
      RunAppend(m, Applied(m, c, a[0]), a[1..], b);
    }
  }

  // ---------------------------------------------------------------------------
  // Defaults, parameters, loads and reloads

  datatype Default = Default(line: Line, alias: bool)

  // Aliases are only set up once.
  function DefaultItems(defaults: seq<Default>, ls: Load): seq<Item> {
    if defaults == [] then []
    else
      (if !defaults[0].alias then [Assign(defaults[0].line, ls.(markDefault := true))]
       else if ls.initializing then [Alias(defaults[0].line)] else [])
      + DefaultItems(defaults[1..], ls)
  }

  predicate IsLongOption(arg: string) { |arg| >= 2 && arg[0] == '-' && arg[1] == '-' }

  function Underscored(s: string): (t: string)
    ensures |t| == |s|
  {
    seq(|s|, i requires 0 <= i < |s| => if s[i] == '-' then '_' else s[i])
  }

  function ParamItem(arg: string): Item
    requires IsLongOption(arg)
  {
    match FindFrom(arg, "=", 0)
    case None => Complain(EmptyOption(arg[2..]))
    case Some(pos) =>
      if pos < 2 then Complain(EmptyOption(arg[2..])) // not reached: the dashes come first
      else Assign(Line(Underscored(Trim(arg[2..pos])), Trim(arg[pos + 1..]), NO_FLAGS, 0), CMDLINE)
  }

  function ReloadItems(defaults: seq<Default>, d: Disk, dirs: set<string>, file: string): seq<Item> {
    DefaultItems(defaults, RELOAD) + ReadFile(d, dirs, file, RELOAD, 0, {}).items
  }

  // ---------------------------------------------------------------------------
  // What a reload can change

  // Lines are only read to reload, as a property map, or, where both directives are supported,
  // out of a file that a property map includes.
  predicate Mode(dirs: set<string>, ls: Load, group: nat) {
    || ls == RELOAD.(markDefault := true)
    || (ls == RELOAD && group == 0)
    || (ls == PROPMAP && "propmap" in dirs && (group == PROPMAP_GROUP || (group == 0 && "include" in dirs)))
  }

  ghost predicate Modes(dirs: set<string>, items: seq<Item>) {
    forall i :: 0 <= i < |items| ==>
      !items[i].Alias? && (items[i].Assign? ==> Mode(dirs, items[i].ls, items[i].line.group))
  }

  lemma {:induction false} FileModes(d: Disk, dirs: set<string>, file: string, ls: Load, group: nat, read: set<string>)
    requires Mode(dirs, ls, group) && !ls.markDefault
    ensures Modes(dirs, ReadFile(d, dirs, file, ls, group, read).items)
    decreases Unread(d, read), 0
  {
    if d.realpath(file).Some? {
      var q := d.realpath(file).value;
      if q in d.files && d.files[q].regular && q !in read && d.files[q].readable {
        UnreadShrinks(d, read, read + {q});
        LinesModes(d, dirs, d.files[q].lines, ls, group, q, read + {q});
      }
    }
  }

  lemma {:induction false} LinesModes(d: Disk, dirs: set<string>, lines: seq<string>, ls: Load, group: nat,
      cur: string, read: set<string>)
    requires Mode(dirs, ls, group) && !ls.markDefault
    ensures Modes(dirs, ReadLines(d, dirs, lines, ls, group, cur, read).items)
    decreases Unread(d, read), 3 + |lines|
  {
    if lines != [] {
      var first := ReadLine(d, dirs, lines[0], ls, group, cur, read);
      if lines[0] != "" && lines[0][0] == '!' {
        DirectiveModes(d, dirs, lines[0], ls, group, cur, read);
      }
      if first.outcome == Yes {
        UnreadShrinks(d, read, first.read);
        LinesModes(d, dirs, lines[1..], ls, group, cur, first.read);
      }
    }
  }

  lemma {:induction false} DirectiveModes(d: Disk, dirs: set<string>, line: string, ls: Load, group: nat,
      cur: string, read: set<string>)
    requires line != "" && Mode(dirs, ls, group) && !ls.markDefault
    ensures Modes(dirs, Directive(d, dirs, line, ls, cur, read).items)
    decreases Unread(d, read), 1
  {
    var pos := FindFrom(line, " \t", 1);
    if pos.Some? {
      var name := line[1..pos.value];
      if name == "include" && name in dirs {
        FileModes(d, dirs, IncludePath(line[pos.value..], cur), ls, 0, read);
      } else if name == "propmap" && name in dirs {
        FileModes(d, dirs, Trim(line[pos.value..]), PROPMAP, PROPMAP_GROUP, read);
      }
    }
  }

  // A line of a reload that replaces a setting: by its group out of a property map, else if the
  // setting is reloadable.
  predicate Overrides(m: Machine, c: Config, k: string, item: Item)
    requires k in c.settings
  {
    && item.Assign?
    && (if item.ls.group then item.line.group == c.settings[k].group else c.settings[k].flags.reloadable)
    && Resolve(c, item.line.name) == k && Sizable(m, item.line, c.settings[k].flags)
  }

  // The last of them, if there is one.
  function LastOverride(m: Machine, c: Config, k: string, items: seq<Item>): (last: Option<Item>)
    requires k in c.settings
    ensures last.Some? ==> last.value in items && Overrides(m, c, k, last.value)
    ensures last.None? ==> forall item :: item in items ==> !Overrides(m, c, k, item)
  {
    if items == [] then None
    else if Overrides(m, c, k, items[|items| - 1]) then Some(items[|items| - 1])
    else LastOverride(m, c, k, items[..|items| - 1])
  }

  // Apart from its value and the mark of the default, the setting is the one it was.
  ghost predicate SameKind(c: Config, b: Config, k: string)
    requires k in c.settings
  {
    && b.aliases == c.aliases && k in b.settings && b.settings[k].group == c.settings[k].group
    && b.settings[k].flags.(markDefault := c.settings[k].flags.markDefault) == c.settings[k].flags
  }

  // The lines that may replace the setting are of its group, as those of the files it is for are.
  ghost predicate OfItsGroup(c: Config, k: string, items: seq<Item>)
    requires k in c.settings
  {
    c.settings[k].flags.reloadable ==>
      forall item :: item in items && item.Assign? && Resolve(c, item.line.name) == k ==>
        item.line.group == c.settings[k].group
  }

  lemma {:induction false} StepLeaves(m: Machine, c: Config, b: Config, dirs: set<string>, k: string, item: Item)
    requires k in c.settings && OfItsGroup(c, k, [item]) && SameKind(c, b, k)
    requires !item.Alias? && (item.Assign? ==> Mode(dirs, item.ls, item.line.group))
    ensures SameKind(c, Applied(m, b, item), k)
    ensures Applied(m, b, item).settings[k]
            == if Overrides(m, c, k, item) then NewSetting(m, item.line, b.settings[k].flags, item.ls)
               else b.settings[k]
  {
    hide ErrorsOf, WarningsOf, NewSetting, Sizable, FlagsFor, Resolve;
    assert item in [item];
    if item.Assign? {
      SameResolve(c, b, item.line.name);
      if Resolve(c, item.line.name) == k {
        SameFlags(c, b, k, item.line, item.ls);
        SizableOnly(m, item.line, c.settings[k].flags, b.settings[k].flags);
        NewKind(m, item.line, b.settings[k].flags, item.ls);
      }
    }
  }

  lemma {:induction false} SameResolve(c: Config, b: Config, name: string)
    requires b.aliases == c.aliases
    ensures Resolve(b, name) == Resolve(c, name)
  {
  }

  lemma {:induction false} SameFlags(c: Config, b: Config, k: string, line: Line, ls: Load)
    requires k in c.settings && SameKind(c, b, k) && Resolve(b, line.name) == k && !ls.cmdline
    ensures FlagsFor(b, line, ls) == b.settings[k].flags
    ensures b.settings[k].flags.reloadable == c.settings[k].flags.reloadable
  {
    var f := b.settings[k].flags;
    assert f.(reloadable := f.reloadable) == f;
  }

  lemma {:induction false} NewKind(m: Machine, line: Line, f: Flags, ls: Load)
    ensures NewSetting(m, line, f, ls).group == line.group
    ensures NewSetting(m, line, f, ls).flags.(markDefault := f.markDefault) == f
  {
  }

  lemma {:induction false} SizableOnly(m: Machine, line: Line, f: Flags, g: Flags)
    requires g.(markDefault := f.markDefault) == f
    ensures Sizable(m, line, g) <==> Sizable(m, line, f)
  {
  }

  lemma {:induction false} ValueOnly(m: Machine, line: Line, f: Flags, g: Flags, ls: Load)
    requires g.(markDefault := f.markDefault) == f
    ensures NewSetting(m, line, f, ls).value == NewSetting(m, line, g, ls).value
  {
  }

  // A setting comes out of a reload exactly as it was, or with the value of the last line that
  // overrides it; and it does not become reloadable or cease to be.
  lemma {:induction false} ReloadedExactly(m: Machine, c: Config, dirs: set<string>, k: string, items: seq<Item>)
    requires k in c.settings && OfItsGroup(c, k, items) && Modes(dirs, items)
    ensures SameKind(c, Run(m, c, items), k)
    ensures match LastOverride(m, c, k, items)
            case None => Run(m, c, items).settings[k] == c.settings[k]
            case Some(item) =>
              Run(m, c, items).settings[k].value == NewSetting(m, item.line, c.settings[k].flags, item.ls).value
    decreases |items|
  {
    hide Overrides, NewSetting, Mode;
    if items != [] {
      var last, rest := items[|items| - 1], items[..|items| - 1];
      assert items == rest + [last];
      RunAppend(m, c, rest, [last]);
      ReloadedExactly(m, c, dirs, k, rest);
      var b := Run(m, c, rest);
      assert Run(m, b, [last]) == Applied(m, b, last);
      StepLeaves(m, c, b, dirs, k, last);
      if Overrides(m, c, k, last) {
        OverrideAssigns(m, c, k, last);
        ValueOnly(m, last.line, c.settings[k].flags, b.settings[k].flags, last.ls);
      }
    }
  }

  lemma {:induction false} OverrideAssigns(m: Machine, c: Config, k: string, item: Item)
    requires k in c.settings && Overrides(m, c, k, item)
    ensures item.Assign?
  {
  }

  lemma {:induction false} DefaultModes(defaults: seq<Default>, dirs: set<string>)
    ensures Modes(dirs, DefaultItems(defaults, RELOAD))
  {
    if defaults != [] {
      DefaultModes(defaults[1..], dirs);
    }
  }

  lemma {:induction false} ReloadModes(defaults: seq<Default>, d: Disk, dirs: set<string>, file: string)
    ensures Modes(dirs, ReloadItems(defaults, d, dirs, file))
  {
    DefaultModes(defaults, dirs);
    FileModes(d, dirs, file, RELOAD, 0, {});
  }

  // Unless both directives are supported, a reload leaves every setting without RELOADABLE that is
  // not in the group of the property maps exactly as it was.
  lemma {:induction false} ReloadLeaves(m: Machine, c: Config, defaults: seq<Default>, d: Disk, dirs: set<string>,
      file: string, k: string)
    requires !("include" in dirs && "propmap" in dirs)
    requires k in c.settings && !c.settings[k].flags.reloadable && c.settings[k].group != PROPMAP_GROUP
    ensures k in Run(m, c, ReloadItems(defaults, d, dirs, file)).settings
    ensures Run(m, c, ReloadItems(defaults, d, dirs, file)).settings[k] == c.settings[k]
  {
    var items := ReloadItems(defaults, d, dirs, file);
    ReloadModes(defaults, d, dirs, file);
    ReloadedExactly(m, c, dirs, k, items);
    assert forall i :: 0 <= i < |items| ==> !Overrides(m, c, k, items[i]);
  }

  function Reloaded(m: Machine, c: Config, defaults: seq<Default>, disks: seq<Disk>, dirs: set<string>,
      file: string): Config
    decreases |disks|
  {
    if disks == [] then c
    else Reloaded(m, Run(m, c, ReloadItems(defaults, disks[0], dirs, file)), defaults, disks[1..], dirs, file)
  }

  // A value given on the command line survives any number of reloads, whatever the files say.
  lemma {:induction false} CommandLineSurvives(m: Machine, c: Config, defaults: seq<Default>, disks: seq<Disk>,
      dirs: set<string>,
                                               file: string, line: Line)
    requires !("include" in dirs && "propmap" in dirs) && line.group == 0
    requires Accepted(m, c, line, CMDLINE)
    ensures var k, b := Resolve(c, line.name), Added(m, c, line, CMDLINE);
            && k in b.settings && k in Reloaded(m, b, defaults, disks, dirs, file).settings
            && Reloaded(m, b, defaults, disks, dirs, file).settings[k] == b.settings[k]
  {
    var k, b := Resolve(c, line.name), Added(m, c, line, CMDLINE);
    assert !b.settings[k].flags.reloadable && b.settings[k].group == 0;
    ReloadsLeave(m, b, defaults, disks, dirs, file, k);
  }

  lemma {:induction false} ReloadsLeave(m: Machine, c: Config, defaults: seq<Default>, disks: seq<Disk>,
      dirs: set<string>, file: string, k: string)
    requires !("include" in dirs && "propmap" in dirs)
    requires k in c.settings && !c.settings[k].flags.reloadable && c.settings[k].group != PROPMAP_GROUP
    ensures k in Reloaded(m, c, defaults, disks, dirs, file).settings
    ensures Reloaded(m, c, defaults, disks, dirs, file).settings[k] == c.settings[k]
    decreases |disks|
  {
    if disks != [] {
      ReloadLeaves(m, c, defaults, disks[0], dirs, file, k);
      ReloadModes(defaults, disks[0], dirs, file);
      ReloadedExactly(m, c, dirs, k, ReloadItems(defaults, disks[0], dirs, file));
      ReloadsLeave(m, Run(m, c, ReloadItems(defaults, disks[0], dirs, file)), defaults, disks[1..], dirs, file, k);
    }
  }

  lemma {:induction false} FindSkips(s: string, chars: string, i: nat, j: nat)
    requires i <= j < |s| && s[j] in chars && forall k :: i <= k < j ==> s[k] !in chars
    ensures FindFrom(s, chars, i) == Some(j)
    decreases j - i
  {
    if i < j {
      FindSkips(s, chars, i + 1, j);
    }
  }

  lemma {:induction false} OneLineFile(d: Disk, dirs: set<string>, file: string, ls: Load, group: nat,
      read: set<string>, line: string)
    requires d.realpath(file) == Some(file) && file in d.files && d.files[file] == File(true, true, [line])
               && file !in read
    requires line != ""
    ensures ReadFile(d, dirs, file, ls, group, read).items
            == if line[0] == '!' then Directive(d, dirs, line, ls, file, read + {file}).items
               else PlainLine(line, ls, group)
  {
    var lines := [line];
    var first := ReadLine(d, dirs, line, ls, group, file, read + {file});
    assert ReadLines(d, dirs, lines[1..], ls, group, file, first.read).items == [];
    assert first.items + [] == first.items;
  }

  lemma {:induction false} DirectiveReads(d: Disk, dirs: set<string>, name: string, path: string, ls: Load,
      cur: string, read: set<string>)
    requires name in dirs && (name == "include" || name == "propmap") && path != "" && path[0] == '/'
               && !IsBlank(path[|path| - 1])
    ensures Directive(d, dirs, "!" + name + " " + path, ls, cur, read)
            == if name == "include" then ReadFile(d, dirs, path, ls, 0, read)
               else ReadFile(d, dirs, path, PROPMAP, PROPMAP_GROUP, read)
  {
    var line := "!" + name + " " + path;
    FindSkips(line, " \t", 1, 8);
    assert line[1..8] == name && line[8..] == " " + path;
    assert (" " + path)[1..] == path;
    assert TrimLeft(" " + path) == TrimLeft(path) == path;
    assert Trim(" " + path) == path;
  }

  lemma {:induction false} NestedInclude(d: Disk, dirs: set<string>)
    requires "include" in dirs && "propmap" in dirs
    requires forall path :: d.realpath(path) == Some(path)
    requires "/m" in d.files && d.files["/m"] == File(true, true, ["!propmap /p"])
    requires "/p" in d.files && d.files["/p"] == File(true, true, ["!include /x"])
    requires "/x" in d.files && d.files["/x"] == File(true, true, ["a=2"])
    ensures ReadFile(d, dirs, "/m", RELOAD, 0, {}).items == [Assign(Line("a", "2", NO_FLAGS, 0), PROPMAP)]
  {
    hide ReadFile, ReadLines, Directive;
    assert "!propmap /p" == "!" + "propmap" + " " + "/p" && "!include /x" == "!" + "include" + " " + "/x";
    OneLineFile(d, dirs, "/m", RELOAD, 0, {}, "!propmap /p");
    DirectiveReads(d, dirs, "propmap", "/p", RELOAD, "/m", {} + {"/m"});
    OneLineFile(d, dirs, "/p", PROPMAP, PROPMAP_GROUP, {} + {"/m"}, "!include /x");
    DirectiveReads(d, dirs, "include", "/x", PROPMAP, "/p", {} + {"/m"} + {"/p"});
    OneLineFile(d, dirs, "/x", PROPMAP, 0, {} + {"/m"} + {"/p"}, "a=2");
    FindSkips("a=2", "=", 0, 1);
    assert "a=2"[..1] == "a" && "a=2"[2..] == "2";
  }

  // With both directives a property map that includes a file of ordinary settings overrides even
  // what was given on the command line.
  lemma {:induction false} BothDirectivesBreakIt(m: Machine, dirs: set<string>) returns (c: Config, d: Disk)
    requires "include" in dirs && "propmap" in dirs
    ensures c.settings == map["a" := Setting(NO_FLAGS, 0, "1")]
    ensures Run(m, c, ReloadItems([], d, dirs, "/m")).settings == map["a" := Setting(NO_FLAGS, 0, "2")]
  {
    hide ReadFile, ReadLines, Directive, PlainLine;
    c := Config(map["a" := Setting(NO_FLAGS, 0, "1")], map[], [], []);
    d := Disk(path => Some(path),
              map["/m" := File(true, true, ["!propmap /p"]), "/p" := File(true, true, ["!include /x"]),
                  "/x" := File(true, true, ["a=2"])]);
    var line := Line("a", "2", NO_FLAGS, 0);
    NestedInclude(d, dirs);
    assert ReloadItems([], d, dirs, "/m") == [Assign(line, PROPMAP)];
    assert Run(m, c, [Assign(line, PROPMAP)]) == Added(m, c, line, PROPMAP);
  }

  ghost predicate LeftAlone(m: Machine, c: Config, defaults: seq<Default>, d: Disk, dirs: set<string>, file: string,
      k: string) {
    k in c.settings && !c.settings[k].flags.reloadable && c.settings[k].group != PROPMAP_GROUP ==>
      var after := Run(m, c, ReloadItems(defaults, d, dirs, file)).settings; k in after && after[k] == c.settings[k]
  }

  // Reloads leave ordinary settings without RELOADABLE alone, whatever the files say, exactly if the
  // program does not support both directives.
  lemma {:induction false} ReloadIsSafeExactly(m: Machine, dirs: set<string>)
    ensures (forall c, defaults, d, file, k :: LeftAlone(m, c, defaults, d, dirs, file, k))
              <==> !("include" in dirs && "propmap" in dirs)
  {
    hide Run, ReloadItems;
    if "include" in dirs && "propmap" in dirs {
      var c, d := BothDirectivesBreakIt(m, dirs);
      assert !LeftAlone(m, c, [], d, dirs, "/m", "a");
    } else {
      forall c, defaults, d, file, k
        ensures LeftAlone(m, c, defaults, d, dirs, file, k)
      {
        if k in c.settings && !c.settings[k].flags.reloadable && c.settings[k].group != PROPMAP_GROUP {
          ReloadLeaves(m, c, defaults, d, dirs, file, k);
        }
      }
    }
  }

  // ---------------------------------------------------------------------------
  // What a reload changes

  // The default of a reloadable setting, given again.
  predicate DefaultOverrides(m: Machine, c: Config, k: string, d: Default)
    requires k in c.settings
  {
    && !d.alias && c.settings[k].flags.reloadable
    && Resolve(c, d.line.name) == k && Sizable(m, d.line, c.settings[k].flags)
  }

  // What the files say last is what a setting gets.  A reloadable one they no longer name goes back
  // to the last of its defaults.
  lemma {:induction false} ReloadedValue(m: Machine, c: Config, defaults: seq<Default>, d: Disk, dirs: set<string>,
      file: string, k: string, i: nat)
    requires k in c.settings && OfItsGroup(c, k, ReloadItems(defaults, d, dirs, file))
    ensures var lines, after := ReadFile(d, dirs, file, RELOAD, 0, {}).items,
                                Run(m, c, ReloadItems(defaults, d, dirs, file)).settings;
            var last := LastOverride(m, c, k, lines);
            && k in after
            && (last.Some? ==>
                  after[k].value == NewSetting(m, last.value.line, c.settings[k].flags, last.value.ls).value)
            && (last.None? && i < |defaults| && DefaultOverrides(m, c, k, defaults[i])
                && (forall j :: i < j < |defaults| ==> !DefaultOverrides(m, c, k, defaults[j])) ==>
                  after[k].value
                  == NewSetting(m, defaults[i].line, c.settings[k].flags, RELOAD.(markDefault := true)).value)
            && (last.None? && (forall j :: 0 <= j < |defaults| ==> !DefaultOverrides(m, c, k, defaults[j])) ==>
                  after[k] == c.settings[k])
  {
    hide Overrides, DefaultOverrides, NewSetting, Mode, OfItsGroup, Run, ReadFile, DefaultItems;
    var lines := ReadFile(d, dirs, file, RELOAD, 0, {}).items;
    ReloadModes(defaults, d, dirs, file);
    ReloadedExactly(m, c, dirs, k, ReloadItems(defaults, d, dirs, file));
    LastOverrideAppend(m, c, k, DefaultItems(defaults, RELOAD), lines);
    if i < |defaults| && DefaultOverrides(m, c, k, defaults[i])
       && forall j :: i < j < |defaults| ==> !DefaultOverrides(m, c, k, defaults[j]) {
      LastDefault(m, c, k, defaults, i);
    }
    if forall j :: 0 <= j < |defaults| ==> !DefaultOverrides(m, c, k, defaults[j]) {
      NoDefault(m, c, k, defaults);
    }
  }

  lemma {:induction false} LastOverrideAppend(m: Machine, c: Config, k: string, a: seq<Item>, b: seq<Item>)
    requires k in c.settings
    ensures var last := LastOverride(m, c, k, b);
            LastOverride(m, c, k, a + b) == if last.Some? then last else LastOverride(m, c, k, a)
    decreases |b|
  {
    hide Overrides;
    if b == [] {
      assert a + b == a;
    } else {
      assert (a + b)[..|a + b| - 1] == a + b[..|b| - 1];
      LastOverrideAppend(m, c, k, a, b[..|b| - 1]);
    }
  }

  lemma {:induction false} LastDefault(m: Machine, c: Config, k: string, defaults: seq<Default>, i: nat)
    requires k in c.settings && i < |defaults| && DefaultOverrides(m, c, k, defaults[i])
    requires forall j :: i < j < |defaults| ==> !DefaultOverrides(m, c, k, defaults[j])
    ensures LastOverride(m, c, k, DefaultItems(defaults, RELOAD))
            == Some(Assign(defaults[i].line, RELOAD.(markDefault := true)))
    decreases |defaults|
  {
    hide DefaultOverrides, Overrides, LastOverride;
    OneByOne(defaults);
    LastOverrideAppend(m, c, k, DefaultItems([defaults[0]], RELOAD), DefaultItems(defaults[1..], RELOAD));
    if i > 0 {
      LastDefault(m, c, k, defaults[1..], i - 1);
    } else {
      NoDefault(m, c, k, defaults[1..]);
      OneDefault(m, c, k, defaults[0]);
    }
  }

  lemma {:induction false} NoDefault(m: Machine, c: Config, k: string, defaults: seq<Default>)
    requires k in c.settings && forall j :: 0 <= j < |defaults| ==> !DefaultOverrides(m, c, k, defaults[j])
    ensures LastOverride(m, c, k, DefaultItems(defaults, RELOAD)) == None
  {
    hide DefaultOverrides, Overrides;
    if defaults != [] {
      NoDefault(m, c, k, defaults[1..]);
      OneDefault(m, c, k, defaults[0]);
      OneByOne(defaults);
      LastOverrideAppend(m, c, k, DefaultItems([defaults[0]], RELOAD), DefaultItems(defaults[1..], RELOAD));
    }
  }

  lemma {:induction false} OneByOne(defaults: seq<Default>)
    requires defaults != []
    ensures DefaultItems(defaults, RELOAD) == DefaultItems([defaults[0]], RELOAD) + DefaultItems(defaults[1..], RELOAD)
  {
    assert [defaults[0]][1..] == [];
  }

  lemma {:induction false} OneDefault(m: Machine, c: Config, k: string, d: Default)
    requires k in c.settings
    ensures LastOverride(m, c, k, DefaultItems([d], RELOAD))
            == if DefaultOverrides(m, c, k, d) then Some(Assign(d.line, RELOAD.(markDefault := true))) else None
  {
    var items := DefaultItems([d], RELOAD);
    assert [d][1..] == [] && DefaultItems([], RELOAD) == [];
    var first := if d.alias then [] else [Assign(d.line, RELOAD.(markDefault := true))];
    assert first + [] == first;
    assert items == first;
    assert items != [] ==> items[..|items| - 1] == [];
  }

  // ---------------------------------------------------------------------------
  // How reading ends

  ghost predicate Complains(items: seq<Item>) { exists i :: 0 <= i < |items| && items[i].Complain? }

  ghost predicate EndsWell(r: Reading) {
    && (r.outcome == No <==> Complains(r.items))
    && (r.outcome == No ==> r.items != [] && r.items[|r.items| - 1].Complain? && !Complains(r.items[..|r.items| - 1]))
  }

  // Reading fails exactly if it has a complaint, and that is its last word.
  lemma {:induction false} FailsExactly(d: Disk, dirs: set<string>, file: string, ls: Load, group: nat,
      read: set<string>)
    ensures EndsWell(ReadFile(d, dirs, file, ls, group, read))
    decreases Unread(d, read), 0
  {
    hide EndsWell, ReadLines;
    var q, r := d.realpath(file), ReadFile(d, dirs, file, ls, group, read);
    if q.Some? && q.value in d.files && d.files[q.value].regular && q.value !in read && d.files[q.value].readable {
      UnreadShrinks(d, read, read + {q.value});
      LinesFailExactly(d, dirs, d.files[q.value].lines, ls, group, q.value, read + {q.value});
    } else if r.outcome == Yes {
      NoComplaint([], r.read, Yes);
    } else {
      OneComplaint(r.items[0].error, r.read);
    }
  }

  lemma {:induction false} LinesFailExactly(d: Disk, dirs: set<string>, lines: seq<string>, ls: Load, group: nat,
      cur: string, read: set<string>)
    ensures EndsWell(ReadLines(d, dirs, lines, ls, group, cur, read))
    decreases Unread(d, read), 3 + |lines|
  {
    hide EndsWell, Directive;
    if lines == [] {
      NoComplaint([], read, Yes);
    } else {
      var first := ReadLine(d, dirs, lines[0], ls, group, cur, read);
      if lines[0] != "" && lines[0][0] == '!' {
        DirectiveFailsExactly(d, dirs, lines[0], ls, cur, read);
      } else {
        NoComplaint(first.items, read, Yes);
      }
      if first.outcome == Yes {
        UnreadShrinks(d, read, first.read);
        LinesFailExactly(d, dirs, lines[1..], ls, group, cur, first.read);
        JoinedEnds(first, ReadLines(d, dirs, lines[1..], ls, group, cur, first.read));
      }
    }
  }

  lemma {:induction false} DirectiveFailsExactly(d: Disk, dirs: set<string>, line: string, ls: Load, cur: string,
      read: set<string>)
    requires line != ""
    ensures EndsWell(Directive(d, dirs, line, ls, cur, read))
    decreases Unread(d, read), 1
  {
    hide EndsWell, ReadFile, IncludePath, Trim;
    var pos := FindFrom(line, " \t", 1);
    var name := if pos.Some? then line[1..pos.value] else line[1..];
    if pos.Some? && name == "include" && name in dirs {
      FailsExactly(d, dirs, IncludePath(line[pos.value..], cur), ls, 0, read);
    } else if pos.Some? && name == "propmap" && name in dirs {
      FailsExactly(d, dirs, Trim(line[pos.value..]), PROPMAP, PROPMAP_GROUP, read);
    } else {
      var r := Directive(d, dirs, line, ls, cur, read);
      NoComplaint(r.items, r.read, r.outcome);
    }
  }

  lemma {:induction false} NoComplaint(items: seq<Item>, read: set<string>, outcome: Outcome)
    requires outcome != No && forall item :: item in items ==> !item.Complain?
    ensures EndsWell(Reading(items, read, outcome))
  {
    assert forall i :: 0 <= i < |items| ==> items[i] in items;
  }

  lemma {:induction false} OneComplaint(e: Message, read: set<string>)
    ensures EndsWell(Reading([Complain(e)], read, No))
  {
    assert [Complain(e)][0].Complain?;
  }

  lemma {:induction false} JoinedEnds(first: Reading, rest: Reading)
    requires EndsWell(first) && first.outcome == Yes && EndsWell(rest)
    ensures EndsWell(Reading(first.items + rest.items, rest.read, rest.outcome))
  {
    hide Complains;
    ComplaintsAppend(first.items, rest.items);
    if rest.outcome == No {
      NotEmpty(rest.items);
      var s := first.items + rest.items;
      assert s[..|s| - 1] == first.items + rest.items[..|rest.items| - 1];
      ComplaintsAppend(first.items, rest.items[..|rest.items| - 1]);
    }
  }

  lemma {:induction false} NotEmpty(items: seq<Item>)
    requires Complains(items)
    ensures items != []
  {
  }

  lemma {:induction false} ComplaintsAppend(a: seq<Item>, b: seq<Item>)
    ensures Complains(a + b) <==> Complains(a) || Complains(b)
  {
    var s := a + b;
    if i :| 0 <= i < |a| && a[i].Complain? {
      assert s[i].Complain?;
    }
    if i :| 0 <= i < |b| && b[i].Complain? {
      assert s[|a| + i].Complain?;
    }
  }

  // To include a file once more that has been read changes nothing.
  lemma {:induction false} IncludedOnce(d: Disk, dirs: set<string>, file: string, ls: Load, group: nat,
      read: set<string>, ls1: Load, group1: nat)
    requires ReadFile(d, dirs, file, ls, group, read).outcome == Yes
    ensures var r := ReadFile(d, dirs, file, ls, group, read);
            ReadFile(d, dirs, file, ls1, group1, r.read) == Reading([], r.read, Yes)
  {
  }

  // A directive ends at the first blank.  One that is unknown, or that the program does not support,
  // is passed over; one without an argument ends the load.
  lemma {:induction false} DirectiveSays(d: Disk, dirs: set<string>, name: string, rest: string, ls: Load,
      cur: string, read: set<string>)
    requires ' ' !in name && '\t' !in name && (rest == "" || rest[0] == ' ' || rest[0] == '\t')
    ensures var r := Directive(d, dirs, "!" + name + rest, ls, cur, read);
            if name != "include" && name != "propmap" then r == Reading([Warn(UnknownDirective(name))], read, Yes)
            else if name !in dirs then r == Reading([Warn(UnsupportedDirective(name))], read, Yes)
            else if rest == "" then r == Reading([], read, Thrown)
            else r == if name == "include" then ReadFile(d, dirs, IncludePath(rest, cur), ls, 0, read)
                      else ReadFile(d, dirs, Trim(rest), PROPMAP, PROPMAP_GROUP, read)
  {
    hide ReadFile, IncludePath, Trim;
    var line := "!" + name + rest;
    forall k | 1 <= k < 1 + |name|
      ensures line[k] !in " \t"
    {
      assert line[k] == name[k - 1] && name[k - 1] in name;
    }
    if rest == "" {
      NoneFound(line, " \t", 1);
      assert line[1..] == name;
    } else {
      assert line[1 + |name|] == rest[0];
      FindSkips(line, " \t", 1, 1 + |name|);
    }
    assert line[1..1 + |name|] == name && line[1 + |name|..] == rest;
  }

  // ---------------------------------------------------------------------------
  // Sizes out of the environment

  // A value accepted for a size setting is stored as a number unless it comes out of the
  // environment by a line that does not say itself that it is a size, and is not the same either way.
  lemma {:induction false} SizesAreConvertedExactly(m: Machine, c: Config, line: Line, ls: Load)
    requires Accepted(m, c, line, ls) && FlagsFor(c, line, ls).size
    ensures var flags, k := FlagsFor(c, line, ls), Resolve(c, line.name);
            var text := Text(m, line, flags);
            && k in Added(m, c, line, ls).settings && m.isNumber(text)
            && (Added(m, c, line, ls).settings[k].value == Cut(m.sizeText(text), VALUE_MAX) <==>
                  || !FromEnv(line, flags)
                  || line.flags.size
                  || Cut(text, VALUE_MAX) == Cut(m.sizeText(text), VALUE_MAX))
  {
  }

  // No line of a file does.
  lemma {:induction false} FileLinesHaveNoFlags(line: string, ls: Load, group: nat)
    ensures forall item :: item in PlainLine(line, ls, group) ==> item.Assign? && item.line.flags == NO_FLAGS
  {
  }

  // So with S=1k in the environment, the line m=$S of a file leaves 1k in the setting m.
  lemma {:induction false} EnvironmentSizeStaysText(m: Machine, d: Disk, dirs: set<string>, c: Config)
    requires m.env("S") == Some("1k") && m.isNumber("1k")
    requires d.realpath("/f") == Some("/f") && "/f" in d.files && d.files["/f"] == File(true, true, ["m=$S"])
    requires c.settings == map["m" := Setting(NO_FLAGS.(size := true), 0, "0")] && c.aliases == map[]
    ensures Run(m, c, ReadFile(d, dirs, "/f", LOAD, 0, {}).items).settings
            == map["m" := Setting(NO_FLAGS.(size := true), 0, "1k")]
  {
    hide ReadFile, ReadLines, Directive;
    OneLineFile(d, dirs, "/f", LOAD, 0, {}, "m=$S");
    FindSkips("m=$S", "=", 0, 1);
    assert "m=$S"[..1] == "m" && "m=$S"[2..] == "$S" && "$S"[1..] == "S";
    var line := Line("m", "$S", NO_FLAGS, 0);
    assert PlainLine("m=$S", LOAD, 0) == [Assign(line, LOAD)];
    assert Run(m, c, [Assign(line, LOAD)]) == Added(m, c, line, LOAD);
  }

  // ---------------------------------------------------------------------------
  // What one line does

  // Who may set what: the lines of the first load and the command line every known setting, those
  // of a reload the reloadable ones, those of a property map unknown ones and the ones of its group,
  // the defaults at the start everything.
  lemma {:induction false} WhoMaySet(c: Config, line: Line)
    ensures var k := Resolve(c, line.name);
            && (Allowed(c, line, LOAD) <==> k in c.settings)
            && (Allowed(c, line, CMDLINE) <==> k in c.settings)
            && (Allowed(c, line, RELOAD) <==> k in c.settings && c.settings[k].flags.reloadable)
            && (Allowed(c, line, PROPMAP) <==> k in c.settings ==> c.settings[k].group == line.group)
            && Allowed(c, line, INITIALIZE)
  {
  }

  // A setting that is not reloadable is passed over by a reload without a word.
  predicate Quiet(c: Config, k: string, ls: Load) {
    k in c.settings && !ls.group && ls.reload && !c.settings[k].flags.reloadable
  }

  // The name an alias stands for, and what the environment has for a value.
  function Named(c: Config, line: Line): string {
    if |line.name| <= NAME_MAX && line.name in c.aliases then c.aliases[line.name] else line.name
  }

  function Known(c: Config, line: Line): Flags {
    if Named(c, line) in c.settings then c.settings[Named(c, line)].flags else line.flags
  }

  function Given(m: Machine, line: Line, exact: bool): string {
    if line.value != "" && line.value[0] == '$' && !exact && m.env(line.value[1..]).Some? then
      m.env(line.value[1..]).value
    else line.value
  }

  predicate AsksEnvironment(c: Config, line: Line) {
    line.value != "" && line.value[0] == '$' && !Known(c, line).exact
  }

  // A line that may is stored, with the flags the setting had, less RELOADABLE if it was a
  // parameter, and unless the value is asked of the environment with the mark of the default as the
  // load has it.  Other settings stay, and a line that is not stored leaves the error that fits,
  // unless it only was not reloadable.
  lemma {:induction false} LineIsStored(m: Machine, c: Config, line: Line, ls: Load)
    requires |Named(c, line)| <= 255
    ensures var k, d := Named(c, line), Added(m, c, line, ls);
            && d.aliases == c.aliases
            && d.errors == c.errors + (if Accepted(m, c, line, ls) || Quiet(c, k, ls) then [] else
                                       [if Allowed(c, line, ls) then NotASize(line.name)
                                        else if k !in c.settings then UnknownOption(line.name)
                                        else if ls.group then DifferentGroup(line.name)
                                        else NotOverridable(line.name)])
            && (forall x :: x != k ==> (x in d.settings <==> x in c.settings)
                                       && (x in c.settings ==> d.settings[x] == c.settings[x]))
            && (!Accepted(m, c, line, ls) ==> d.settings == c.settings)
            && (Accepted(m, c, line, ls) ==>
                  && k in d.settings && d.settings[k].group == line.group
                  && d.settings[k].flags.reloadable == (Known(c, line).reloadable && !(k in c.settings && ls.cmdline))
                  && d.settings[k].flags.markDefault
                     == if AsksEnvironment(c, line) then Known(c, line).markDefault else ls.markDefault)
  {
    hide Sizable, WarningsOf, Text, Cut;
    assert Resolve(c, line.name) == Named(c, line) by { NotCut(c, line); }
  }

  lemma {:induction false} NotCut(c: Config, line: Line)
    requires |Named(c, line)| <= 255
    ensures Resolve(c, line.name) == Named(c, line)
  {
  }

  // Only who is not setting up the defaults is warned: of an alias, of a known setting that is obsolete
  // or unused, if the line is allowed; and anyone of what the environment does not have.
  lemma {:induction false} WarnedExactly(m: Machine, c: Config, line: Line, ls: Load)
    requires |Named(c, line)| <= 255
    ensures c.warnings <= Added(m, c, line, ls).warnings
    ensures var k, f := Named(c, line), Known(c, line);
            var more := Added(m, c, line, ls).warnings[|c.warnings|..];
            var told := !ls.initializing && k in c.settings && Allowed(c, line, ls);
            && (forall n, a :: Deprecated(n, a) in more <==>
                  !ls.initializing && n == line.name && |n| <= 255 && n in c.aliases && a == c.aliases[n])
            && (forall n :: Obsolete(n) in more <==> told && n == line.name && f.obsolete)
            && (forall n :: NoEffect(n) in more <==> told && n == line.name && f.unused)
            && (forall n :: NotInEnvironment(n) in more <==>
                  Allowed(c, line, ls) && line.value == "$" + n && !f.exact && m.env(n).None?)
  {
    hide Allowed, AliasWarnings, KnownWarnings, EnvWarnings, FlagsFor, Resolve, Named, Known;
    NotCut(c, line);
    var known, env := KnownWarnings(c, line, ls), EnvWarnings(m, line, FlagsFor(c, line, ls));
    var more := Added(m, c, line, ls).warnings[|c.warnings|..];
    assert more == WarningsOf(m, c, line, ls);
    AliasWarned(c, line, ls);
    KnownWarned(c, line, ls);
    EnvironmentWarned(m, c, line, ls);
  }

  lemma {:induction false} AliasWarned(c: Config, line: Line, ls: Load)
    ensures forall w :: w in AliasWarnings(c, line, ls) <==>
                          !ls.initializing && |line.name| <= 255 && line.name in c.aliases
                          && w == Deprecated(line.name, c.aliases[line.name])
  {
  }

  lemma {:induction false} KnownWarned(c: Config, line: Line, ls: Load)
    requires |Named(c, line)| <= 255
    ensures forall w :: w in KnownWarnings(c, line, ls) <==>
                          && !ls.initializing && Named(c, line) in c.settings && Allowed(c, line, ls)
                          && (|| (w == Obsolete(line.name) && Known(c, line).obsolete)
                              || (w == NoEffect(line.name) && Known(c, line).unused))
  {
    hide Allowed, Resolve, Named;
    NotCut(c, line);
  }

  lemma {:induction false} EnvironmentWarned(m: Machine, c: Config, line: Line, ls: Load)
    requires |Named(c, line)| <= 255
    ensures forall w :: w in EnvWarnings(m, line, FlagsFor(c, line, ls)) <==>
                          AsksEnvironment(c, line) && m.env(line.value[1..]).None?
                          && w == NotInEnvironment(line.value[1..])
    ensures forall n :: AsksEnvironment(c, line) && line.value[1..] == n <==>
                          !Known(c, line).exact && line.value == "$" + n
  {
    hide Resolve, Named;
    NotCut(c, line);
    if line.value != "" && line.value[0] == '$' {
      assert line.value == "$" + line.value[1..];
    }
    forall n | line.value == "$" + n
      ensures line.value[1..] == n
    {
    }
  }

  // What is stored is the text given, up to its length; a size setting takes only numbers.
  lemma {:induction false} TextIsStored(m: Machine, c: Config, line: Line, ls: Load)
    requires |Named(c, line)| <= 255
    ensures var k, f := Named(c, line), Known(c, line);
            var text := Given(m, line, f.exact);
            && (Accepted(m, c, line, ls) <==> Allowed(c, line, ls) && (f.size ==> m.isNumber(text)))
            && (Accepted(m, c, line, ls) && !f.size && !line.flags.size ==>
                  && k in Added(m, c, line, ls).settings
                  && Added(m, c, line, ls).settings[k].value == if |text| <= 1023 then text else text[..1023])
  {
    hide ErrorsOf, WarningsOf;
    NotCut(c, line);
  }

  // ---------------------------------------------------------------------------
  // What one line of text says

  predicate AllBlank(s: string) { forall i :: 0 <= i < |s| ==> IsBlank(s[i]) }

  // Neither end is blank.
  predicate Trimmed(s: string) { s != "" ==> !IsBlank(s[0]) && !IsBlank(s[|s| - 1]) }

  lemma {:induction false} TrimTrims(a: string, s: string, b: string)
    requires AllBlank(a) && AllBlank(b) && Trimmed(s)
    ensures Trim(a + s + b) == s
  {
    TrimLeftTrims(a, s + b);
    assert a + s + b == a + (s + b);
    if s == "" {
      assert s + b == b && b + "" == b;
      TrimLeftTrims(b, "");
    } else {
      assert TrimLeft(s + b) == s + b;
      TrimRightTrims(s, b);
    }
  }

  lemma {:induction false} TrimLeftTrims(a: string, s: string)
    requires AllBlank(a)
    ensures TrimLeft(a + s) == TrimLeft(s)
  {
    if a == "" {
      assert a + s == s;
    } else {
      assert (a + s)[1..] == a[1..] + s;
      TrimLeftTrims(a[1..], s);
    }
  }

  lemma {:induction false} TrimRightTrims(s: string, b: string)
    requires AllBlank(b) && s != "" && !IsBlank(s[|s| - 1])
    ensures TrimRight(s + b) == s
    decreases |b|
  {
    if b == "" {
      assert s + b == s;
    } else {
      assert (s + b)[..|s + b| - 1] == s + b[..|b| - 1];
      TrimRightTrims(s, b[..|b| - 1]);
    }
  }

  // `name = value` with blanks wherever they may be.
  lemma {:induction false} NameAndValue(a: string, name: string, b: string, value: string, d: string, ls: Load,
      group: nat)
    requires AllBlank(a) && AllBlank(b) && AllBlank(d) && Trimmed(name) && Trimmed(value)
    requires name != "" && '=' !in name && (a == "" ==> name[0] != '#')
    ensures PlainLine(a + name + b + "=" + value + d, ls, group) == [Assign(Line(name, value, NO_FLAGS, group), ls)]
  {
    hide Trim;
    var left := a + name + b;
    var line := left + "=" + value + d;
    BlankFree(a, name, b);
    forall k | 0 <= k < |left|
      ensures line[k] == left[k] != '='
    {
      assert left[k] in left;
    }
    assert line[0] == if a == "" then name[0] else a[0];
    assert line[|left|] == '=';
    FindSkips(line, "=", 0, |left|);
    assert line[..|left|] == left && line[|left| + 1..] == "" + value + d;
    TrimTrims(a, name, b);
    TrimTrims("", value, d);
  }

  // A line without a name or a value, or with a `#` in front, says nothing.
  lemma {:induction false} NothingAssigned(left: string, right: string, ls: Load, group: nat)
    requires '=' !in left
    ensures PlainLine(left, ls, group) == []
    ensures PlainLine(left + "=" + right, ls, group) == [] <==> AllBlank(left) || left[0] == '#'
  {
    hide Trim;
    NoneFound(left, "=", 0);
    var line := left + "=" + right;
    forall k | 0 <= k < |left|
      ensures line[k] != '='
    {
      assert line[k] == left[k] && left[k] in left;
    }
    assert line[|left|] == '=' && line[0] == if left == "" then '=' else left[0];
    FindSkips(line, "=", 0, |left|);
    assert line[..|left|] == left;
    TrimmedAway(left);
  }

  lemma {:induction false} TrimmedAway(s: string)
    ensures Trim(s) == "" <==> AllBlank(s)
  {
    if s != "" && IsBlank(s[0]) {
      TrimmedAway(s[1..]);
      assert AllBlank(s) <==> AllBlank(s[1..]);
    } else if s != "" {
      KeepsFirst(s);
    }
  }

  lemma {:induction false} KeepsFirst(s: string)
    requires s != "" && !IsBlank(s[0])
    ensures TrimRight(s) != ""
    decreases |s|
  {
    if IsBlank(s[|s| - 1]) {
      KeepsFirst(s[..|s| - 1]);
    }
  }

  // An include without a leading slash is beside the file it is in.
  lemma {:induction false} IncludeIsBeside(dir: string, file: string, path: string)
    requires '/' !in file && Trimmed(path)
    ensures path != "" && path[0] == '/' ==> IncludePath(" " + path, dir + "/" + file) == path
    ensures path == "" || path[0] != '/' ==>
              && IncludePath(" " + path, dir + "/" + file) == dir + "/" + path
              && IncludePath(" " + path, file) == "./" + path
  {
    assert " " + path == " " + path + "";
    TrimTrims(" ", path, "");
    LastSlash(dir, file);
    NoSlash(file, |file|);
    assert (dir + "/" + file)[..|dir|] == dir;
  }

  lemma {:induction false} LastSlash(dir: string, file: string)
    requires '/' !in file
    ensures FindLast(dir + "/" + file, '/', |dir| + 1 + |file|) == Some(|dir|)
  {
    LastSlashFrom(dir, file, |file|);
  }

  lemma {:induction false} LastSlashFrom(dir: string, file: string, n: nat)
    requires '/' !in file && n <= |file|
    ensures FindLast(dir + "/" + file, '/', |dir| + 1 + n) == Some(|dir|)
  {
    var s := dir + "/" + file;
    if n > 0 {
      assert s[|dir| + n] == file[n - 1] && file[n - 1] in file;
      LastSlashFrom(dir, file, n - 1);
    } else {
      assert s[|dir|] == '/';
    }
  }

  lemma {:induction false} NoSlash(file: string, n: nat)
    requires '/' !in file && n <= |file|
    ensures FindLast(file, '/', n) == None
  {
    if n > 0 {
      assert file[n - 1] in file;
      NoSlash(file, n - 1);
    }
  }

  // A long option sets the setting of its name, dashes read as underscores.
  lemma {:induction false} OptionAndValue(a: string, name: string, b: string, key: string, d: string, value: string,
      e: string)
    requires AllBlank(a) && AllBlank(b) && AllBlank(d) && AllBlank(e) && Trimmed(name) && Trimmed(value)
    requires '=' !in name && |key| == |name|
    requires forall i :: 0 <= i < |name| ==> key[i] == if name[i] == '-' then '_' else name[i]
    ensures ParamItem("--" + a + name + b + "=" + d + value + e) == Assign(Line(key, value, NO_FLAGS, 0), CMDLINE)
    ensures ParamItem("--" + name) == Complain(EmptyOption(name))
  {
    hide Trim;
    var left := a + name + b;
    var arg := "--" + left + "=" + (d + value + e);
    assert arg == "--" + a + name + b + "=" + d + value + e;
    BlankFree(a, name, b);
    forall k | 0 <= k < 2 + |left|
      ensures arg[k] != '='
    {
      assert k >= 2 ==> arg[k] == left[k - 2] && left[k - 2] in left;
    }
    assert arg[2 + |left|] == '=';
    FindSkips(arg, "=", 0, 2 + |left|);
    assert arg[2..2 + |left|] == left && arg[3 + |left|..] == d + value + e;
    TrimTrims(a, name, b);
    TrimTrims(d, value, e);
    assert Underscored(name) == key;
    NoneFound("--" + name, "=", 0);
    assert ("--" + name)[2..] == name;
  }

  lemma {:induction false} BlankFree(a: string, name: string, b: string)
    requires AllBlank(a) && AllBlank(b) && '=' !in name
    ensures '=' !in a + name + b
  {
    forall k | 0 <= k < |a + name + b|
      ensures (a + name + b)[k] != '='
    {
      if k < |a| {
        assert (a + name + b)[k] == a[k];
      } else if k < |a| + |name| {
        assert (a + name + b)[k] == name[k - |a|] && name[k - |a|] in name;
      } else {
        assert (a + name + b)[k] == b[k - |a| - |name|];
      }
    }
  }

  lemma {:induction false} NoneFound(s: string, chars: string, i: nat)
    requires i <= |s| && forall k :: i <= k < |s| ==> s[k] !in chars
    ensures FindFrom(s, chars, i) == None
    decreases |s| - i
  {
    if i < |s| {
      NoneFound(s, chars, i + 1);
    }
  }
}
