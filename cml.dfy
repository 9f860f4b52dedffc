/**
 * game_backuper/cml.py: the command line. getopt itself is not modelled: the options arrive
 * already split into (name, value) pairs and the positionals after them.
 */
module Cml {
  import opened Wrappers
  import opened Strings
  import opened Config

  /** DEFAULT_CONFIG: under %APPDATA% on Windows, /etc elsewhere. */
  function DefaultConfig(windows: bool, appdata: string): (r: string)
    ensures !windows ==> r == "/etc/game-backuper.yaml"
    ensures windows ==> r == appdata + "\\game-backuper.yaml"
  {
    if windows then appdata + "\\game-backuper.yaml" else "/etc/game-backuper.yaml"
  }

  const Help := "-h"
  const ConfigOpt := "-c"

  datatype OptAction = Backup | Restore

  /** OptAction.from_str: 'backup' or 'restore' in any letter case; None for other strings; a
      value that is not a string raises TypeError. */
  function FromStr(v: Yaml): (r: Result<Option<OptAction>>)
    ensures !v.YStr? ==> r == Err(TypeError("Must be str."))
    ensures v.YStr? ==> r.Ok?
    ensures r == Ok(Some(Backup)) <==> v.YStr? && Lower(v.s) == "backup"
    ensures r == Ok(Some(Restore)) <==> v.YStr? && Lower(v.s) == "restore"
  {
    if !v.YStr? then Err(TypeError("Must be str."))
    else
      var t := Lower(v.s);
      if t == "backup" then Ok(Some(Backup))
      else if t == "restore" then Ok(Some(Restore))
      else Ok(None)
  }

  /** The action word a positional names, if it names one. */
  function ActionWord(w: string): Option<OptAction>
  {
    var a := FromStr(YStr(w));
    if a.Ok? then a.value else None
  }

  /** No '-c' follows index i. */
  predicate LastOf(options: seq<(string, string)>, i: nat)
  {
    forall j :: i < j < |options| ==> options[j].0 != ConfigOpt
  }

  /** The config file after the options: the value of the last '-c', or the default. */
  function LastConfig(options: seq<(string, string)>, dflt: string): string
  {
    if options == [] then dflt
    else if options[|options| - 1].0 == ConfigOpt then options[|options| - 1].1
    else LastConfig(options[..|options| - 1], dflt)
  }

  /** LastConfig is the default when there is no '-c', and otherwise the value of the last one. */
  lemma LastConfigIsLast(options: seq<(string, string)>, dflt: string)
    ensures (forall i :: 0 <= i < |options| ==> options[i].0 != ConfigOpt) ==> LastConfig(options, dflt) == dflt
    ensures forall i :: 0 <= i < |options| && options[i].0 == ConfigOpt && LastOf(options, i) ==>
      LastConfig(options, dflt) == options[i].1
  {
    if forall i :: 0 <= i < |options| ==> options[i].0 != ConfigOpt {
      NoConfigDefault(options, dflt);
    }
    forall i | 0 <= i < |options| && options[i].0 == ConfigOpt && LastOf(options, i)
      ensures LastConfig(options, dflt) == options[i].1
    {
      LastWins(options, dflt, i);
    }
  }

  lemma {:induction false} NoConfigDefault(options: seq<(string, string)>, dflt: string)
    requires forall i :: 0 <= i < |options| ==> options[i].0 != ConfigOpt
    ensures LastConfig(options, dflt) == dflt
    decreases |options|
  {
    if options != [] {
      var init := options[..|options| - 1];
      assert forall i :: 0 <= i < |init| ==> init[i] == options[i];
      NoConfigDefault(init, dflt);
    }
  }

  lemma {:induction false} LastWins(options: seq<(string, string)>, dflt: string, i: nat)
    requires i < |options| && options[i].0 == ConfigOpt && LastOf(options, i)
    ensures LastConfig(options, dflt) == options[i].1
    decreases |options|
  {
    var n := |options| - 1;
    if i < n {
      var init := options[..n];
      assert options[n].0 != ConfigOpt;
      assert LastConfig(options, dflt) == LastConfig(init, dflt);
      assert init[i] == options[i];
      assert LastOf(init, i) by {
        forall j | i < j < |init|
          ensures init[j].0 != ConfigOpt
        {
          assert init[j] == options[j];
        }
      }
      LastWins(init, dflt, i);
    }
  }

  lemma LastConfigStep(options: seq<(string, string)>, k: nat, dflt: string)
    requires k < |options|
    ensures LastConfig(options[..k + 1], dflt)
      == if options[k].0 == ConfigOpt then options[k].1 else LastConfig(options[..k], dflt)
  {
    assert options[..k + 1][..k] == options[..k];
  }

  /** A later '-c' overrides every earlier one. */
  lemma {:induction false} LaterOverrides(options: seq<(string, string)>, v: string, dflt: string)
    ensures LastConfig(options + [(ConfigOpt, v)], dflt) == v
  {
  }

  /** The action and the programs list the positionals give: a leading action word sets the
      action and the rest are program names; without one every positional is a program name
      and the action stays BACKUP. The list is left unset when no name remains. */
  function Positionals(pos: seq<string>): (r: (OptAction, Option<seq<string>>))
    ensures r.1.Some? ==> |r.1.value| > 0
    ensures |pos| == 0 ==> r == (Backup, None)
    ensures |pos| > 0 && ActionWord(pos[0]).Some? ==>
      r.0 == ActionWord(pos[0]).value && (r.1.Some? <==> |pos| > 1) && (r.1.Some? ==> pos == [pos[0]] + r.1.value)
    ensures |pos| > 0 && ActionWord(pos[0]).None? ==> r == (Backup, Some(pos))
  {
    if |pos| == 0 then (Backup, None)
    else
      var re := ActionWord(pos[0]);
      var li := if re.None? then pos else pos[1..];
      (if re.Some? then re.value else Backup, if |li| > 0 then Some(li) else None)
  }

  /** The option loop of Opts.__init__: stops at the first '-h'; until then each '-c' sets the
      config file. */
  method ScanOptions(options: seq<(string, string)>, current: string) returns (help: bool, config: string)
    ensures help <==> exists i :: 0 <= i < |options| && options[i].0 == Help
    ensures !help ==> config == LastConfig(options, current)
  {
    config := current;
    var k := 0;
    while k < |options|
      invariant 0 <= k <= |options|
      invariant forall i :: 0 <= i < k ==> options[i].0 != Help
      invariant config == LastConfig(options[..k], current)
      decreases |options| - k
    {
      LastConfigStep(options, k, current);
      if options[k].0 == Help {
        return true, config;
      } else if options[k].0 == ConfigOpt {
        config := options[k].1;
      }
      k := k + 1;
    }
    assert options[..k] == options;
    return false, config;
  }

  /** Opts: the parsed command line. */
  class Opts {
    var configFile: string
    var action: OptAction
    var programsList: Option<seq<string>>

    /** The class-level defaults. */
    constructor (dflt: string)
      ensures configFile == dflt && action == Backup && programsList == None
    {
      configFile, action, programsList := dflt, Backup, None;
    }

    /** The body of Opts.__init__ after getopt: '-h' prints the help and exits with status 0;
        otherwise '-c' values set the config file and the positionals the rest. */
    method Parse(options: seq<(string, string)>, pos: seq<string>) returns (exit: Option<int>)
      modifies this
      ensures (exists i :: 0 <= i < |options| && options[i].0 == Help) <==> exit == Some(0)
      ensures exit.None? ==> configFile == LastConfig(options, old(configFile))
      ensures exit.None? && |pos| > 0 ==>
        && action == (if ActionWord(pos[0]).Some? then Positionals(pos).0 else old(action))
        && programsList == (if Positionals(pos).1.Some? then Positionals(pos).1 else old(programsList))
      ensures exit.None? && |pos| == 0 ==>
        action == old(action) && programsList == old(programsList)
      ensures exit.Some? ==> action == old(action) && programsList == old(programsList)
    {
      var help, config := ScanOptions(options, configFile);
      if help {
        return Some(0);
      }
      configFile := config;
      if |pos| > 0 {
        var re := ActionWord(pos[0]);
        if re.Some? {
          action := re.value;
        }
        var li := if re.None? then pos else pos[1..];
        if |li| > 0 {
          programsList := Some(li);
        }
      }
      return None;
    }
  }

  /** Opts(cml): the defaults, then the options and positionals. */
  method NewOpts(dflt: string, options: seq<(string, string)>, pos: seq<string>)
    returns (exit: Option<int>, o: Opts)
    ensures fresh(o)
    ensures (exists i :: 0 <= i < |options| && options[i].0 == Help) <==> exit == Some(0)
    ensures exit.None? ==> o.configFile == LastConfig(options, dflt)
    ensures exit.None? ==> (o.action, o.programsList) == Positionals(pos)
  {
    o := new Opts(dflt);
    exit := o.Parse(options, pos);
  }
}
