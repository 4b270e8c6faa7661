// ECConfigImpl: settings from defaults, files and the command line.
module Configs {
  import opened Settings

  // ---------------------------------------------------------------------------
  // The command line

  predicate Stays(arg: Option<string>) { arg.None? || IsLongOption(arg.value) }

  function Long(args: seq<Option<string>>): seq<Option<string>> {
    if args == [] then [] else (if Stays(args[0]) then [args[0]] else []) + Long(args[1..])
  }

  // The others, last first.
  function OthersBackwards(args: seq<Option<string>>): seq<Option<string>> {
    if args == [] then [] else OthersBackwards(args[1..]) + if Stays(args[0]) then [] else [args[0]]
  }

  function ParamItems(args: seq<Option<string>>): seq<Item> {
    if args == [] then []
    else
      (if args[0].Some? && IsLongOption(args[0].value) then [ParamItem(args[0].value)] else [])
      + ParamItems(args[1..])
  }

  // Reordering loses nothing, and what it puts first are the long options.
  lemma {:induction false} ParamsAreKept(args: seq<Option<string>>)
    ensures multiset(Long(args)) + multiset(OthersBackwards(args)) == multiset(args)
  {
    hide Stays;
    if args != [] {
      ParamsAreKept(args[1..]);
      assert args == [args[0]] + args[1..];
    }
  }

  lemma {:induction false} ParamsAreSplit(args: seq<Option<string>>)
    ensures forall arg :: arg in Long(args) ==> Stays(arg)
    ensures forall arg :: arg in OthersBackwards(args) ==> !Stays(arg)
  {
    hide Stays;
    if args != [] {
      ParamsAreSplit(args[1..]);
    }
  }

  lemma {:induction false} EqualsComesLater(arg: string)
    requires IsLongOption(arg)
    ensures FindFrom(arg, "=", 0).Some? ==> FindFrom(arg, "=", 0).value >= 2
  {
  }

  // No file is fopened twice, and of those that are read each that can be.
  ghost predicate Opened(d: Disk, fopened: seq<string>, read: set<string>) {
    && (forall i, j :: 0 <= i < j < |fopened| ==> fopened[i] != fopened[j])
    && (forall p :: p in fopened <==> p in read && p in d.files && d.files[p].readable)
  }

  lemma {:induction false} OneMoreRead(d: Disk, fopened: seq<string>, read: set<string>, q: string)
    requires Opened(d, fopened, read) && q in d.files && q !in read
    ensures Opened(d, if d.files[q].readable then fopened + [q] else fopened, read + {q})
  {
    if d.files[q].readable {
      assert forall p :: p in fopened + [q] <==> p in fopened || p == q;
    }
  }

  class ConfigImpl {
    const machine: Machine
    const defaults: seq<Default>
    const directives: set<string>
    var configFile: Option<string>
    var settings: map<string, Setting>
    var aliases: map<string, string>
    var errors: seq<Message>
    var warnings: seq<Message>
    var currentFile: string
    var readFiles: set<string>
    ghost var fopened: seq<string> // by the load under way

    ghost function Now(): Config
      reads this`settings, this`aliases, this`errors, this`warnings
    {
      Config(settings, aliases, errors, warnings)
    }

    ghost predicate OpenedOnce(d: Disk)
      reads this`fopened, this`readFiles
    {
      Opened(d, fopened, readFiles)
    }

    constructor (machine: Machine, defaults: seq<Default>, directives: set<string>)
      ensures this.machine == machine && this.defaults == defaults && this.directives == directives
      ensures Now() == Run(machine, Config(map[], map[], [], []), DefaultItems(defaults, INITIALIZE))
      ensures configFile == None && readFiles == {} && fopened == []
    {
      this.machine := machine;
      this.defaults := defaults;
      this.directives := directives;
      configFile := None;
      settings, aliases, errors, warnings := map[], map[], [], [];
      currentFile, readFiles, fopened := "", {}, [];
      new;
      InitDefaults(INITIALIZE);
    }

    method InitDefaults(ls: Load)
      modifies this`settings, this`aliases, this`errors, this`warnings
      ensures Now() == Run(machine, old(Now()), DefaultItems(defaults, ls))
    {
      ghost var c := Now();
      var i := 0;
      while i < |defaults|
        invariant 0 <= i <= |defaults|
        invariant Run(machine, Now(), DefaultItems(defaults[i..], ls)) == Run(machine, c, DefaultItems(defaults, ls))
      {
        ghost var rest := DefaultItems(defaults[i + 1..], ls);
        assert defaults[i..][0] == defaults[i] && defaults[i..][1..] == defaults[i + 1..];
        if defaults[i].alias {
          assert [] + rest == rest;
          if ls.initializing {
            RunCons(machine, Now(), Alias(defaults[i].line), rest);
            AddAlias(defaults[i].line);
          }
          i := i + 1;
          continue;
        }
        RunCons(machine, Now(), Assign(defaults[i].line, ls.(markDefault := true)), rest);
        var _ := AddSetting(defaults[i].line, ls.(markDefault := true));
        i := i + 1;
      }
    }

    method AddAlias(line: Line)
      modifies this`aliases
      ensures Now() == Applied(machine, old(Now()), Alias(line))
    {
      aliases := aliases[Cut(line.name, NAME_MAX) := Cut(line.value, VALUE_MAX)];
    }

    method AddSetting(line: Line, ls: Load) returns (ok: bool)
      modifies this`settings, this`errors, this`warnings
      ensures Now() == Added(machine, old(Now()), line, ls)
      ensures ok <==>
                || old(Accepted(machine, Now(), line, ls))
                || (Resolve(old(Now()), line.name) !in old(settings) && !ls.unknown)
    {
      hide NewSetting, Sizable, EnvWarnings, FromEnv, KnownWarnings, Refusals, FlagsFor;
      ghost var c := Now();
      var key := Cut(line.name, NAME_MAX);
      if |line.name| <= NAME_MAX && line.name in aliases {
        if !ls.initializing {
          warnings := warnings + [Deprecated(line.name, aliases[line.name])];
        }
        key := Cut(aliases[line.name], NAME_MAX);
      }
      SameSettings(c, Now(), line, ls);
      var allowed, flags;
      allowed, ok, flags := MayStore(key, line, ls);
      if allowed {
        ok := Store(key, line, flags, ls);
      }
    }

    // Whether the line may set this key; if not, whether that passes for success.
    method MayStore(key: string, line: Line, ls: Load) returns (allowed: bool, ok: bool, flags: Flags)
      requires key == Resolve(Now(), line.name)
      modifies this`errors, this`warnings
      ensures allowed <==> Allowed(old(Now()), line, ls)
      ensures !allowed ==> (ok <==> key !in settings && !ls.unknown)
      ensures errors == old(errors) + if allowed then [] else Refusals(old(Now()), line, ls)
      ensures warnings == old(warnings) + KnownWarnings(old(Now()), line, ls)
      ensures allowed ==> flags == FlagsFor(old(Now()), line, ls)
    {
      hide Resolve;
      flags := line.flags;
      if key !in settings {
        if !ls.unknown {
          errors := errors + [UnknownOption(line.name)];
          return false, true, flags;
        }
        return true, true, flags;
      }
      if ls.group {
        if settings[key].group != line.group {
          errors := errors + [DifferentGroup(line.name)];
          return false, false, flags;
        }
      } else if ls.reload {
        if !settings[key].flags.reloadable {
          return false, false, flags;
        }
      } else if !ls.overwrite {
        errors := errors + [NotOverridable(line.name)];
        return false, false, flags;
      }
      if !ls.initializing && settings[key].flags.obsolete {
        warnings := warnings + [Obsolete(line.name)];
      }
      if !ls.initializing && settings[key].flags.unused {
        warnings := warnings + [NoEffect(line.name)];
      }
      flags := settings[key].flags;
      if ls.cmdline {
        flags := flags.(reloadable := false);
      }
      allowed, ok := true, true;
    }

    // The value, out of the environment if it says so.
    method Store(key: string, line: Line, flags: Flags, ls: Load) returns (ok: bool)
      modifies this`settings, this`errors, this`warnings
      ensures ok <==> Sizable(machine, line, flags)
      ensures settings == if ok then old(settings)[key := NewSetting(machine, line, flags, ls)] else old(settings)
      ensures errors == old(errors) + if ok then [] else [NotASize(line.name)]
      ensures warnings == old(warnings) + EnvWarnings(machine, line, flags)
    {
      if line.value != "" && line.value[0] == '$' && !flags.exact {
        var text := line.value;
        var found := machine.env(line.value[1..]);
        if found == None {
          warnings := warnings + [NotInEnvironment(line.value[1..])];
        } else {
          text := found.value;
        }
        if flags.size && !machine.isNumber(text) {
          errors := errors + [NotASize(line.name)];
          return false;
        }
        InsertOrReplace(key, flags, line.group, text, line.flags.size);
        return true;
      }
      if flags.size && !machine.isNumber(line.value) {
        errors := errors + [NotASize(line.name)];
        return false;
      }
      InsertOrReplace(key, flags.(markDefault := ls.markDefault), line.group, line.value, flags.size);
      ok := true;
    }

    method InsertOrReplace(key: string, flags: Flags, group: nat, value: string, isSize: bool)
      modifies this`settings
      ensures var text := if isSize then machine.sizeText(value) else value;
              settings == old(settings)[key := Setting(flags, group, Cut(text, VALUE_MAX))]
    {
      var data := if isSize then machine.sizeText(value) else Cut(value, VALUE_MAX);
      settings := settings[key := Setting(flags, group, Cut(data, VALUE_MAX))];
    }

    // Read a file and whatever it includes, each file once.
    method ReadConfigFile(d: Disk, file: string, ls: Load, group: nat) returns (r: Outcome)
      requires OpenedOnce(d)
      modifies this`settings, this`errors, this`warnings, this`currentFile, this`readFiles, this`fopened
      ensures var reading := ReadFile(d, directives, file, ls, group, old(readFiles));
              Now() == Run(machine, old(Now()), reading.items) && readFiles == reading.read && r == reading.outcome
      ensures r != Thrown ==> currentFile == old(currentFile)
      ensures OpenedOnce(d) && old(fopened) <= fopened
      decreases Unread(d, readFiles), 0, 1
    {
      hide Run, ReadLines;
      ghost var c := Now();
      RunNothing(machine, c);
      var normalized := d.realpath(file);
      if normalized == None {
        RunComplaint(machine, c, CannotNormalize(file));
        errors := errors + [CannotNormalize(file)];
        return No;
      }
      var q := normalized.value;
      if q !in d.files {
        RunComplaint(machine, c, CannotRead(file));
        errors := errors + [CannotRead(file)];
        return No;
      }
      if !d.files[q].regular {
        RunComplaint(machine, c, NotAFile(file));
        errors := errors + [NotAFile(file)];
        return No;
      }
      var prevFile := currentFile;
      currentFile := q;
      if q in readFiles {
        currentFile := prevFile;
        return Yes;
      }
      r := ReadNewFile(d, file, q, ls, group);
      if r != Thrown {
        currentFile := prevFile;
      }
    }

    method ReadNewFile(d: Disk, file: string, q: string, ls: Load, group: nat) returns (r: Outcome)
      requires OpenedOnce(d) && q in d.files && q !in readFiles && currentFile == q
      modifies this`settings, this`errors, this`warnings, this`currentFile, this`readFiles, this`fopened
      ensures var reading := if !d.files[q].readable
                then Reading([Complain(CannotOpen(file))], old(readFiles) + {q}, No)
                             else ReadLines(d, directives, d.files[q].lines, ls, group, q, old(readFiles) + {q});
              Now() == Run(machine, old(Now()), reading.items) && readFiles == reading.read && r == reading.outcome
      ensures OpenedOnce(d) && old(fopened) <= fopened
      decreases Unread(d, readFiles), 0, 0
    {
      hide Run, ReadLines, Opened;
      UnreadShrinks(d, readFiles, readFiles + {q});
      OneMoreRead(d, fopened, readFiles, q);
      readFiles := readFiles + {q};
      if !d.files[q].readable {
        RunComplaint(machine, Now(), CannotOpen(file));
        errors := errors + [CannotOpen(file)];
        return No;
      }
      fopened := fopened + [q];
      r := ReadTheLines(d, d.files[q].lines, ls, group);
    }

    method ReadTheLines(d: Disk, lines: seq<string>, ls: Load, group: nat) returns (r: Outcome)
      requires OpenedOnce(d)
      modifies this`settings, this`errors, this`warnings, this`currentFile, this`readFiles, this`fopened
      ensures var reading := ReadLines(d, directives, lines, ls, group, old(currentFile), old(readFiles));
              Now() == Run(machine, old(Now()), reading.items) && readFiles == reading.read && r == reading.outcome
      ensures r != Thrown ==> currentFile == old(currentFile)
      ensures OpenedOnce(d) && old(fopened) <= fopened
      decreases Unread(d, readFiles), 2
    {
      hide ReadLine, ReadLines, ReadFile, Directive, PlainLine, Run, Applied, Unread;
      ghost var c, reading := Now(), ReadLines(d, directives, lines, ls, group, currentFile, readFiles);
      var i := 0;
      ghost var done: seq<Item> := [];
      assert lines[0..] == lines;
      RunNothing(machine, c);
      while i < |lines|
        invariant 0 <= i <= |lines| && OpenedOnce(d) && old(fopened) <= fopened
        invariant currentFile == old(currentFile) && old(readFiles) <= readFiles
        invariant Now() == Run(machine, c, done)
        invariant var rest := ReadLines(d, directives, lines[i..], ls, group, currentFile, readFiles);
                  reading == Reading(done + rest.items, rest.read, rest.outcome)
      {
        ghost var first := ReadLine(d, directives, lines[i], ls, group, currentFile, readFiles);
        LinesStep(d, directives, lines[i..], ls, group, currentFile, readFiles);
        assert lines[i..][0] == lines[i] && lines[i..][1..] == lines[i + 1..];
        UnreadShrinks(d, old(readFiles), readFiles);
        r := ReadOneLine(d, lines[i], ls, group);
        RunAppend(machine, c, done, first.items);
        done := done + first.items;
        if r != Yes {
          return;
        }
        i := i + 1;
      }
      LinesStep(d, directives, lines[i..], ls, group, currentFile, readFiles);
      assert lines[i..] == [] && done + [] == done;
      r := Yes;
    }

    method ReadOneLine(d: Disk, line: string, ls: Load, group: nat) returns (r: Outcome)
      requires OpenedOnce(d)
      modifies this`settings, this`errors, this`warnings, this`currentFile, this`readFiles, this`fopened
      ensures var reading := ReadLine(d, directives, line, ls, group, old(currentFile), old(readFiles));
              Now() == Run(machine, old(Now()), reading.items) && readFiles == reading.read && r == reading.outcome
      ensures r != Thrown ==> currentFile == old(currentFile)
      ensures OpenedOnce(d) && old(fopened) <= fopened
      decreases Unread(d, readFiles), 1, 1
    {
      ghost var c := Now();
      RunNothing(machine, c);
      if line == "" || line[0] == '#' {
        return Yes;
      }
      if line[0] == '!' {
        r := HandleDirective(d, line, ls);
        return;
      }
      r := Yes;
      var pos := FindFrom(line, "=", 0);
      if pos == None {
        return;
      }
      var name, value := Trim(line[..pos.value]), Trim(line[pos.value + 1..]);
      if name != "" {
        RunOne(machine, c, [], Assign(Line(name, value, NO_FLAGS, group), ls));
        var _ := AddSetting(Line(name, value, NO_FLAGS, group), ls);
      }
    }

    method HandleDirective(d: Disk, line: string, ls: Load) returns (r: Outcome)
      requires OpenedOnce(d) && line != ""
      modifies this`settings, this`errors, this`warnings, this`currentFile, this`readFiles, this`fopened
      ensures var reading := Directive(d, directives, line, ls, old(currentFile), old(readFiles));
              Now() == Run(machine, old(Now()), reading.items) && readFiles == reading.read && r == reading.outcome
      ensures r != Thrown ==> currentFile == old(currentFile)
      ensures OpenedOnce(d) && old(fopened) <= fopened
      decreases Unread(d, readFiles), 1, 0
    {
      var pos := FindFrom(line, " \t", 1);
      var name := if pos.Some? then line[1..pos.value] else line[1..];
      if name == "include" || name == "propmap" {
        if name in directives {
          if pos == None {
            return Thrown;
          }
          if name == "include" {
            r := HandleInclude(d, line[pos.value..], ls);
          } else {
            r := HandlePropMap(d, line[pos.value..]);
          }
          return;
        }
        warnings := warnings + [UnsupportedDirective(name)];
        return Yes;
      }
      warnings := warnings + [UnknownDirective(name)];
      r := Yes;
    }

    method HandleInclude(d: Disk, args: string, ls: Load) returns (r: Outcome)
      requires OpenedOnce(d)
      modifies this`settings, this`errors, this`warnings, this`currentFile, this`readFiles, this`fopened
      ensures var reading := ReadFile(d, directives, IncludePath(args, old(currentFile)), ls, 0, old(readFiles));
              Now() == Run(machine, old(Now()), reading.items) && readFiles == reading.read && r == reading.outcome
      ensures r != Thrown ==> currentFile == old(currentFile)
      ensures OpenedOnce(d) && old(fopened) <= fopened
      decreases Unread(d, readFiles), 0, 2
    {
      var value := Trim(args);
      var file := value;
      if value == "" || value[0] != '/' {
        var pos := FindLast(currentFile, '/', |currentFile|);
        file := if pos.Some? then currentFile[..pos.value] else ".";
        file := file + "/" + value;
      }
      r := ReadConfigFile(d, file, ls, 0);
    }

    method HandlePropMap(d: Disk, args: string) returns (r: Outcome)
      requires OpenedOnce(d)
      modifies this`settings, this`errors, this`warnings, this`currentFile, this`readFiles, this`fopened
      ensures var reading := ReadFile(d, directives, Trim(args), PROPMAP, PROPMAP_GROUP, old(readFiles));
              Now() == Run(machine, old(Now()), reading.items) && readFiles == reading.read && r == reading.outcome
      ensures r != Thrown ==> currentFile == old(currentFile)
      ensures OpenedOnce(d) && old(fopened) <= fopened
      decreases Unread(d, readFiles), 0, 2
    {
      r := ReadConfigFile(d, Trim(args), PROPMAP, PROPMAP_GROUP);
    }

    // A whole load of the file set.
    method InitConfigFile(d: Disk, ls: Load) returns (r: Outcome)
      requires readFiles == {}
      modifies this`settings, this`errors, this`warnings, this`currentFile, this`readFiles, this`fopened
      ensures configFile == None ==> r == No && Now() == old(Now()) && readFiles == {}
      ensures configFile.Some? ==>
                var reading := ReadFile(d, directives, configFile.value, ls, 0, {});
                && Now() == Run(machine, old(Now()), reading.items) && r == reading.outcome
                && (forall i, j :: 0 <= i < j < |fopened| ==> fopened[i] != fopened[j])
                && (forall p :: p in fopened <==> p in reading.read && p in d.files && d.files[p].readable)
      ensures r != Thrown ==> readFiles == {} && currentFile == old(currentFile)
    {
      fopened := [];
      if configFile == None {
        return No;
      }
      r := ReadConfigFile(d, configFile.value, ls, 0);
      if r != Thrown {
        readFiles := {};
      }
    }

    method LoadSettings(d: Disk, file: string, ignoreMissing: bool) returns (r: Outcome)
      requires readFiles == {}
      modifies this`configFile, this`settings, this`errors, this`warnings, this`currentFile, this`readFiles,
          this`fopened
      ensures d.realpath(file) == None && ignoreMissing ==>
                r == Yes && Now() == old(Now()) && configFile == old(configFile)
      ensures !(d.realpath(file) == None && ignoreMissing) ==>
                configFile == Some(file)
                && var reading := ReadFile(d, directives, file, LOAD, 0, {});
                   Now() == Run(machine, old(Now()), reading.items) && r == reading.outcome
      ensures r != Thrown ==> readFiles == {}
    {
      if d.realpath(file) == None && ignoreMissing {
        return Yes;
      }
      configFile := Some(file);
      r := InitConfigFile(d, LOAD);
    }

    // Defaults first, because what the file no longer sets goes back to them.
    method ReloadSettings(d: Disk) returns (r: Outcome)
      requires readFiles == {}
      modifies this`settings, this`aliases, this`errors, this`warnings, this`currentFile, this`readFiles, this`fopened
      ensures configFile == None || !CanOpen(d, configFile.value) ==> r == No && Now() == old(Now())
      ensures configFile.Some? && CanOpen(d, configFile.value) ==>
                Now() == Run(machine, old(Now()), ReloadItems(defaults, d, directives, configFile.value))
      ensures !("include" in directives && "propmap" in directives) ==>
                forall k | k in old(settings) && !old(settings)[k].flags.reloadable
                           && old(settings)[k].group != PROPMAP_GROUP ::
                  k in settings && settings[k] == old(settings)[k]
      ensures r != Thrown ==> readFiles == {}
    {
      ghost var c := Now();
      if configFile == None {
        return No;
      }
      if !CanOpen(d, configFile.value) {
        return No;
      }
      InitDefaults(RELOAD);
      r := InitConfigFile(d, RELOAD);
      RunAppend(machine, c, DefaultItems(defaults, RELOAD),
          ReadFile(d, directives, configFile.value, RELOAD, 0, {}).items);
      if !("include" in directives && "propmap" in directives) {
        forall k | k in c.settings && !c.settings[k].flags.reloadable && c.settings[k].group != PROPMAP_GROUP
          ensures k in settings && settings[k] == c.settings[k]
        {
          ReloadLeaves(machine, c, defaults, d, directives, configFile.value, k);
        }
      }
    }

    static predicate CanOpen(d: Disk, file: string) {
      d.realpath(file).Some? && d.realpath(file).value in d.files && d.files[d.realpath(file).value].readable
    }

    // Take the long options, in order, and move everything else behind them; the rest comes to
    // lie last first.
    method ParseParams(argv: array<Option<string>>) returns (n: nat)
      modifies argv, this`settings, this`errors, this`warnings
      ensures argv[..] == Long(old(argv[..])) + OthersBackwards(old(argv[..])) && n == |Long(old(argv[..]))|
      ensures Now() == Run(machine, old(Now()), ParamItems(old(argv[..])))
    {
      hide Run, Long, OthersBackwards, ParamItems;
      ghost var args, c := argv[..], Now();
      NoParams();
      n := argv.Length;
      var i := 0;
      ghost var front: seq<Option<string>>, rest, back: seq<Option<string>> := [], args, [];
      while i < n
        invariant argv[..] == front + rest + back && |front| == i && |back| == argv.Length - n
        invariant front + Long(rest) == Long(args)
        invariant OthersBackwards(rest) + back == OthersBackwards(args)
        invariant Run(machine, Now(), ParamItems(rest)) == Run(machine, c, ParamItems(args))
        decreases n - i
      {
        var arg := argv[i];
        assert rest == [arg] + rest[1..];
        Regrouped(front, arg, rest[1..], back);
        ParamStep(machine, Now(), front, arg, rest[1..], back);
        if arg == None {
          i := i + 1;
          front, rest := front + [arg], rest[1..];
          continue;
        }
        if !IsLongOption(arg.value) {
          n := n - 1;
          Rotated(argv[..], front, arg, rest[1..], back);
          MoveToEnd(argv, i, n);
          rest, back := rest[1..], [arg] + back;
          continue;
        }
        var _ := TakeParam(arg.value);
        i := i + 1;
        front, rest := front + [arg], rest[1..];
      }
      assert rest == [];
      RunNothing(machine, Now());
    }

    method TakeParam(arg: string) returns (ok: bool)
      requires IsLongOption(arg)
      modifies this`settings, this`errors, this`warnings
      ensures Now() == Applied(machine, old(Now()), ParamItem(arg))
    {
      hide Trim, Underscored, Added, FindFrom;
      EqualsComesLater(arg);
      var eq := FindFrom(arg, "=", 0);
      if eq == None {
        errors := errors + [EmptyOption(arg[2..])];
        return false;
      }
      var name, value := Trim(arg[2..eq.value]), Trim(arg[eq.value + 1..]);
      ok := AddSetting(Line(Underscored(name), value, NO_FLAGS, 0), CMDLINE);
    }
  }

  lemma {:induction false} Regrouped(front: seq<Option<string>>, arg: Option<string>, rest: seq<Option<string>>,
      back: seq<Option<string>>)
    ensures front + ([arg] + rest) + back == front + [arg] + rest + back
  {
  }

  lemma {:induction false} Rotated(s: seq<Option<string>>, front: seq<Option<string>>, arg: Option<string>,
                                   rest: seq<Option<string>>, back: seq<Option<string>>)
    requires s == front + ([arg] + rest) + back
    ensures var i, last := |front|, |front| + |rest|;
            last < |s| && s[..i] + s[i + 1..last + 1] + [s[i]] + s[last + 1..] == front + rest + ([arg] + back)
  {
    var i, last := |front|, |front| + |rest|;
    assert s[..i] == front && s[i + 1..last + 1] == rest && s[last + 1..] == back;
  }

  lemma {:induction false} NoParams()
    ensures Long([]) == [] && OthersBackwards([]) == [] && ParamItems([]) == []
  {
  }

  lemma {:induction false} ParamStep(m: Machine, c: Config, front: seq<Option<string>>, arg: Option<string>,
                                     rest: seq<Option<string>>, back: seq<Option<string>>)
    ensures var all := [arg] + rest;
            && (Stays(arg) ==>
                front + Long(all) == front + [arg] + Long(rest) && OthersBackwards(all) == OthersBackwards(rest))
            && (!Stays(arg) ==>
                Long(all) == Long(rest) && OthersBackwards(all) + back == OthersBackwards(rest) + ([arg] + back))
            && Run(m, c, ParamItems(all))
               == Run(m, if arg.Some? && Stays(arg) then Applied(m, c, ParamItem(arg.value)) else c, ParamItems(rest))
  {
    hide Run, Applied;
    var all := [arg] + rest;
    assert all[0] == arg && all[1..] == rest;
    if arg.Some? && Stays(arg) {
      RunCons(m, c, ParamItem(arg.value), ParamItems(rest));
    } else {
      assert [] + ParamItems(rest) == ParamItems(rest);
    }
  }

  // Rotate argv[i..last + 1] by one.
  method MoveToEnd(argv: array<Option<string>>, i: nat, last: nat)
    requires i <= last < argv.Length
    modifies argv
    ensures var s := old(argv[..]); argv[..] == s[..i] + s[i + 1..last + 1] + [s[i]] + s[last + 1..]
  {
    ghost var before := argv[..];
    var arg := argv[i];
    for j := i to last
      invariant forall k :: 0 <= k < argv.Length ==> argv[k] == if i <= k < j then old(argv[k + 1]) else old(argv[k])
    {
      argv[j] := argv[j + 1];
    }
    argv[last] := arg;
    Shifted(before, argv[..], i, last);
  }

  lemma {:induction false} Shifted(s: seq<Option<string>>, t: seq<Option<string>>, i: nat, last: nat)
    requires i <= last < |s| == |t| && t[last] == s[i]
    requires forall k :: 0 <= k < i || last < k < |s| ==> t[k] == s[k]
    requires forall k :: i <= k < last ==> t[k] == s[k + 1]
    ensures t == s[..i] + s[i + 1..last + 1] + [s[i]] + s[last + 1..]
  {
    assert t[..i] == s[..i] && t[i..last] == s[i + 1..last + 1] && t[last..last + 1] == [s[i]]
           && t[last + 1..] == s[last + 1..];
    assert t == t[..i] + t[i..last] + t[last..last + 1] + t[last + 1..];
  }

  lemma {:induction false} RunCons(m: Machine, c: Config, item: Item, rest: seq<Item>)
    ensures Run(m, c, [item] + rest) == Run(m, Applied(m, c, item), rest)
  {
    assert ([item] + rest)[1..] == rest;
  }

  lemma {:induction false} RunOne(m: Machine, c: Config, done: seq<Item>, item: Item)
    ensures Run(m, c, done + [item]) == Applied(m, Run(m, c, done), item)
  {
    RunAppend(m, c, done, [item]);
    RunCons(m, Run(m, c, done), item, []);
    RunNothing(m, Applied(m, Run(m, c, done), item));
    assert [item] + [] == [item];
  }

  lemma {:induction false} RunNothing(m: Machine, c: Config)
    ensures Run(m, c, []) == c
  {
  }

  lemma {:induction false} LinesStep(d: Disk, dirs: set<string>, lines: seq<string>, ls: Load, group: nat,
      cur: string, read: set<string>)
    ensures lines == [] ==> ReadLines(d, dirs, lines, ls, group, cur, read) == Reading([], read, Yes)
    ensures lines != [] ==>
              var first := ReadLine(d, dirs, lines[0], ls, group, cur, read);
              var rest := ReadLines(d, dirs, lines[1..], ls, group, cur, first.read);
              ReadLines(d, dirs, lines, ls, group, cur, read)
              == if first.outcome != Yes then first else Reading(first.items + rest.items, rest.read, rest.outcome)
  {
    hide ReadLine;
  }

  lemma {:induction false} RunComplaint(m: Machine, c: Config, e: Message)
    ensures Run(m, c, [Complain(e)]) == c.(errors := c.errors + [e])
  {
    RunOne(m, c, [], Complain(e));
    RunNothing(m, c);
    assert [] + [Complain(e)] == [Complain(e)];
  }

  // What a line does depends on the settings and aliases alone.
  lemma {:induction false} SameSettings(c: Config, b: Config, line: Line, ls: Load)
    requires b.settings == c.settings && b.aliases == c.aliases
    ensures Resolve(b, line.name) == Resolve(c, line.name)
    ensures Allowed(b, line, ls) <==> Allowed(c, line, ls)
    ensures KnownWarnings(b, line, ls) == KnownWarnings(c, line, ls)
    ensures Refusals(b, line, ls) == Refusals(c, line, ls)
    ensures FlagsFor(b, line, ls) == FlagsFor(c, line, ls)
  {
  }
}
