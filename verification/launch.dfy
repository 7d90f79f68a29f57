/** `launch_minecraft`: the checks that stop a launch and the command line it builds.
    The launcher library's command builder is a parameter (`Provider`); starting the
    process, the keyboard listener and waiting for the game are not modelled. */
module Launch {
  import opened Wrappers
  import opened Text
  import opened LauncherConfig
  import opened Accounts

  /** `minecraft_launcher_lib.command.get_minecraft_command(version, dir, options)`: the
      full command for a version, a game directory and a username, or `None` when it
      raises (version not installed, broken files, ...). */
  type Provider = (Value, GameDir, string) -> Option<seq<string>>

  /** Why no command is built. `NoVersionSelected` and `NoAccountSelected` are the two
      early returns; `AccountNotFound` is the third early return, which the second one
      makes unreachable; `ArgsUnprintable` is the exception from slicing `java_args` for
      the summary, outside the `try`; the remaining three are exceptions the `try`
      catches. */
  datatype LaunchError =
    | NoVersionSelected
    | NoAccountSelected
    | AccountNotFound
    | ArgsUnprintable
    | ProviderFailed
    | ArgsNotText
    | BadJavaPath

  /** `a["id"] == current_account_id`. */
  predicate IsCurrent(a: Account, current: Value) {
    EqualsInt(current, a.id)
  }

  predicate AnyCurrent(accounts: seq<Account>, current: Value) {
    exists i :: 0 <= i < |accounts| && IsCurrent(accounts[i], current)
  }

  /** `next((a for a in accounts if a["id"] == current), None)`. */
  function FirstCurrent(accounts: seq<Account>, current: Value): (r: Option<Account>)
    ensures r.None? <==> !AnyCurrent(accounts, current)
    ensures r.Some? ==> r.value in accounts && IsCurrent(r.value, current)
  {
    if |accounts| == 0 then None
    else if IsCurrent(accounts[0], current) then Some(accounts[0])
    else
      assert forall i :: 1 <= i < |accounts| ==> accounts[i] == accounts[1..][i - 1];
      FirstCurrent(accounts[1..], current)
  }

  /** `FirstCurrent` picks the earliest account that matches. */
  lemma {:induction false} FirstCurrentIsEarliest(accounts: seq<Account>, current: Value, k: nat)
    requires k < |accounts| && IsCurrent(accounts[k], current)
    requires forall j :: 0 <= j < k ==> !IsCurrent(accounts[j], current)
    ensures FirstCurrent(accounts, current) == Some(accounts[k])
  {
    if k > 0 {
      FirstCurrentIsEarliest(accounts[1..], current, k - 1);
    }
  }

  /** `config.get("java_args", "")[5:11]` succeeds for a string or a list; anything
      else raises. */
  predicate Sliceable(v: Value) {
    v.Str? || v.Array?
  }

  /** The program to run: `java_path` when it is set, else `java`. A set path that is not
      a string makes the process start fail. */
  function JavaExecutable(cfg: Config): (r: Result<string, LaunchError>)
    ensures r.Failure? ==> r.error == BadJavaPath
    ensures !Truthy(Get(cfg, JavaPathKey, Null)) ==> r == Success("java")
    ensures r.Success? && Truthy(Get(cfg, JavaPathKey, Null)) ==> Get(cfg, JavaPathKey, Null) == Str(r.value)
    ensures r.Failure? <==> Truthy(Get(cfg, JavaPathKey, Null)) && !Get(cfg, JavaPathKey, Null).Str?
  {
    match Get(cfg, JavaPathKey, Null)
    case Str(s) => if s != "" then Success(s) else Success("java")
    case v => if Truthy(v) then Failure(BadJavaPath) else Success("java")
  }

  /** `[java_executable] + java_args + minecraft_command[1:]`, read position by position:
      the executable first, then the argument words, then the library's command without
      its first element. */
  predicate Assembled(line: seq<string>, exe: Result<string, LaunchError>, words: seq<string>, cmd: seq<string>) {
    var tail := if |cmd| == 0 then [] else cmd[1..];
    && exe.Success?
    && |line| == 1 + |words| + |tail|
    && line[0] == exe.value
    && line[1..1 + |words|] == words
    && line[1 + |words|..] == tail
  }

  /** The three early returns pass: a version is selected, an account is current, and
      some stored account has that id. */
  predicate PassesGuards(cfg: Config, accounts: seq<Account>) {
    && Truthy(Get(cfg, VersionKey, Null))
    && Truthy(Get(cfg, AccountKey, Null))
    && AnyCurrent(accounts, Get(cfg, AccountKey, Null))
  }

  /** The library's command for the selected version, in the directory the per-version
      flag picks, for the first stored account whose id is the current one. */
  function CommandFor(cfg: Config, accounts: seq<Account>, provider: Provider): Option<seq<string>>
    requires PassesGuards(cfg, accounts)
  {
    var version := Get(cfg, VersionKey, Null);
    provider(version, DirFor(cfg, version), FirstCurrent(accounts, Get(cfg, AccountKey, Null)).value.username)
  }

  /** `launch_minecraft()` (Cobalt_Launcher_Nano_0.7_alpha.py:392-447) up to the process
      start, on the loaded settings and accounts. Each way of stopping is characterised by
      the checks before it, in the order the code makes them. */
  function PlanLaunch(cfg: Config, accounts: seq<Account>, provider: Provider): (r: Result<seq<string>, LaunchError>)
    ensures r == Failure(NoVersionSelected) <==> !Truthy(Get(cfg, VersionKey, Null))
    ensures r == Failure(NoAccountSelected) <==>
              Truthy(Get(cfg, VersionKey, Null)) &&
              (!Truthy(Get(cfg, AccountKey, Null)) || !AnyCurrent(accounts, Get(cfg, AccountKey, Null)))
    ensures r != Failure(AccountNotFound)
    ensures r == Failure(ArgsUnprintable) <==>
              PassesGuards(cfg, accounts) && !Sliceable(Get(cfg, ArgsKey, Str("")))
    ensures r == Failure(ProviderFailed) <==>
              PassesGuards(cfg, accounts) && Sliceable(Get(cfg, ArgsKey, Str(""))) &&
              CommandFor(cfg, accounts, provider).None?
    ensures r == Failure(ArgsNotText) <==>
              PassesGuards(cfg, accounts) && Get(cfg, ArgsKey, Str("")).Array? &&
              CommandFor(cfg, accounts, provider).Some?
    ensures r == Failure(BadJavaPath) <==>
              PassesGuards(cfg, accounts) && Get(cfg, ArgsKey, Str("")).Str? &&
              CommandFor(cfg, accounts, provider).Some? && JavaExecutable(cfg).Failure?
    ensures r.Success? ==>
              && PassesGuards(cfg, accounts)
              && Get(cfg, ArgsKey, Str("")).Str?
              && CommandFor(cfg, accounts, provider).Some?
              && Assembled(r.value, JavaExecutable(cfg), Split(Get(cfg, ArgsKey, Str("")).s),
                           CommandFor(cfg, accounts, provider).value)
  {
    var version := Get(cfg, VersionKey, Null);
    var current := Get(cfg, AccountKey, Null);
    if !Truthy(version) then Failure(NoVersionSelected)
    else if !Truthy(current) || !AnyCurrent(accounts, current) then Failure(NoAccountSelected)
    else match FirstCurrent(accounts, current)
      case None => Failure(AccountNotFound)
      case Some(account) =>
        var args := Get(cfg, ArgsKey, Str(""));
        if !Sliceable(args) then Failure(ArgsUnprintable)
        else match provider(version, DirFor(cfg, version), account.username)
          case None => Failure(ProviderFailed)
          case Some(cmd) =>
            if !args.Str? then Failure(ArgsNotText)
            else match JavaExecutable(cfg)
              case Failure(e) => Failure(e)
              case Success(exe) =>
                var line := [exe] + Split(args.s) + (if |cmd| == 0 then [] else cmd[1..]);
                assert Assembled(line, JavaExecutable(cfg), Split(args.s), cmd);
                Success(line)
  }

  /** The built command runs the chosen Java with the stored arguments word by word: when
      `java_args` holds words joined by single spaces, exactly those words follow the
      executable. */
  lemma ArgsPassedWordByWord(cfg: Config, accounts: seq<Account>, provider: Provider, words: seq<string>)
    requires forall i :: 0 <= i < |words| ==> IsWord(words[i])
    requires ArgsKey in cfg && cfg[ArgsKey] == Str(JoinSpaced(words))
    requires PlanLaunch(cfg, accounts, provider).Success?
    ensures |PlanLaunch(cfg, accounts, provider).value| > |words|
    ensures PlanLaunch(cfg, accounts, provider).value[1..1 + |words|] == words
  {
    SplitJoin(words);
    assert Get(cfg, ArgsKey, Str("")).s == JoinSpaced(words);
    assert Split(Get(cfg, ArgsKey, Str("")).s) == words;
    var r := PlanLaunch(cfg, accounts, provider).value;
    var cmd := CommandFor(cfg, accounts, provider).value;
    assert Assembled(r, JavaExecutable(cfg), words, cmd);
  }

  /** Choosing an account in the account menu (with any id but 0) always gets a launch
      past the account check, as long as a version is selected. */
  lemma SelectedAccountPassesGuard(cfg: Config, accounts: seq<Account>, input: string, provider: Provider)
    requires SelectCommand(cfg, accounts, input).1.Selected?
    requires SelectCommand(cfg, accounts, input).1.account.id != 0
    requires Truthy(Get(cfg, VersionKey, Null))
    ensures var cfg' := SelectCommand(cfg, accounts, input).0;
            PlanLaunch(cfg', accounts, provider) != Failure(NoVersionSelected) &&
            PlanLaunch(cfg', accounts, provider) != Failure(NoAccountSelected)
  {
    var acc := SelectCommand(cfg, accounts, input).1.account;
    var cfg' := SelectCommand(cfg, accounts, input).0;
    assert Get(cfg', VersionKey, Null) == Get(cfg, VersionKey, Null);
    var i :| 0 <= i < |accounts| && accounts[i] == acc;
    assert IsCurrent(accounts[i], Get(cfg', AccountKey, Null));
  }

  /** A launch that passes every check: a selected version, a current account that
      exists, text arguments and no Java path run `java`, then the argument words, then
      the library's command without its own program name, in the game directory the
      per-version flag picks. */
  lemma PlainLaunch(cfg: Config, accounts: seq<Account>, provider: Provider, k: nat, tail: seq<string>)
    requires VersionKey in cfg && Truthy(cfg[VersionKey])
    requires k < |accounts| && forall j :: 0 <= j < k ==> accounts[j].id != accounts[k].id
    requires AccountKey in cfg && cfg[AccountKey] == Int(accounts[k].id) && accounts[k].id != 0
    requires ArgsKey in cfg && cfg[ArgsKey].Str?
    requires !Truthy(Get(cfg, JavaPathKey, Null))
    requires exists exe :: provider(cfg[VersionKey], DirFor(cfg, cfg[VersionKey]), accounts[k].username) == Some([exe] + tail)
    ensures PlanLaunch(cfg, accounts, provider) == Success(["java"] + Split(cfg[ArgsKey].s) + tail)
  {
    var exe :| provider(cfg[VersionKey], DirFor(cfg, cfg[VersionKey]), accounts[k].username) == Some([exe] + tail);
    assert IsCurrent(accounts[k], cfg[AccountKey]);
    FirstCurrentIsEarliest(accounts, cfg[AccountKey], k);
    assert ([exe] + tail)[1..] == tail;
  }

  /** A typical first launch: with the default record, a version selected and the first
      offline account current, the command is `java`, the words of the default arguments
      (`-Xmx2G -Xms1G`, see `DefaultArgsWords`) and the library's command after its
      program name, run in the shared directory. */
  lemma DefaultLaunch(cfg: Config, provider: Provider, version: string, account: Account, tail: seq<string>)
    requires cfg == Default[VersionKey := Str(version)][AccountKey := Int(1)]
    requires version != "" && account.id == 1
    requires exists exe :: provider(Str(version), SharedDir, account.username) == Some([exe] + tail)
    ensures PlanLaunch(cfg, [account], provider) == Success(["java"] + Split(DefaultArgs) + tail)
  {
    assert Get(cfg, ArgsKey, Str("")) == Str(DefaultArgs);
    assert Get(cfg, JavaPathKey, Null) == Null;
    assert cfg[VersionKey] == Str(version) && DirFor(cfg, Str(version)) == SharedDir;
    var exe :| provider(Str(version), SharedDir, account.username) == Some([exe] + tail);
    assert provider(cfg[VersionKey], DirFor(cfg, cfg[VersionKey]), [account][0].username) == Some([exe] + tail);
    PlainLaunch(cfg, [account], provider, 0, tail);
  }

  /** The default arguments split into the two memory flags. */
  lemma DefaultArgsWords()
    ensures Split(DefaultArgs) == ["-Xmx2G", "-Xms1G"]
  {
    assert DefaultArgs == JoinSpaced(["-Xmx2G", "-Xms1G"]);
    assert IsWord("-Xmx2G") && IsWord("-Xms1G");
    SplitJoin(["-Xmx2G", "-Xms1G"]);
  }
}
