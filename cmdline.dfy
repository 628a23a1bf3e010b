/** Option handling of the relay (`cmdline.c`): the interface-name check, the
    interface list built from `-i` arguments, and the option defaults. The
    option list is taken as already split by `getopt`, and `atoi` is a
    parameter. */
module Cmdline {
  import opened Types

  // ---------------------------------------------------------------------------
  // isValidInterfaceName

  /** `islower(c) || isdigit(c) || c == '.'` in the C locale. */
  predicate IsNameChar(c: char)
  {
    ('a' <= c <= 'z') || ('0' <= c <= '9') || c == '.'
  }

  /** `isValidInterfaceName`: walks the name and fails at the first character
      that is not a lower-case letter, a digit or a dot. */
  predicate IsValidInterfaceName(name: string)
  {
    |name| == 0 || (IsNameChar(name[0]) && IsValidInterfaceName(name[1..]))
  }

  /** A name is valid if and only if every one of its characters is a
      lower-case letter, a digit or a dot; so the empty name is valid. */
  lemma {:induction false} ValidNameChars(name: string)
    ensures IsValidInterfaceName(name) <==> forall i :: 0 <= i < |name| ==> IsNameChar(name[i])
  {
    if |name| > 0 {
      ValidNameChars(name[1..]);
      assert forall i :: 1 <= i < |name| ==> name[i] == name[1..][i - 1];
    }
  }

  // ---------------------------------------------------------------------------
  // addInterface

  /** `addInterface`: a new head node carrying `name` in front of the old list
      when the name is valid (its address is filled in later, when interfaces
      are resolved); the list itself otherwise. */
  function AddInterface(ifs: seq<Interface>, name: string): (r: seq<Interface>)
    ensures !IsValidInterfaceName(name) ==> r == ifs
    ensures IsValidInterfaceName(name) ==>
              |r| == |ifs| + 1 && r[0].name == name && r[0].address == UNRESOLVED && r[1..] == ifs
  {
    if IsValidInterfaceName(name) then [Interface(name, UNRESOLVED)] + ifs else ifs
  }

  // ---------------------------------------------------------------------------
  // strtok(optarg, ",")

  /** The length of the token at the start of `s`: up to the first comma or
      the end of `s`. */
  function TokenLength(s: string): (k: nat)
    requires |s| > 0 && s[0] != ','
    ensures 0 < k <= |s| && (forall i :: 0 <= i < k ==> s[i] != ',') && (k < |s| ==> s[k] == ',')
  {
    if |s| == 1 || s[1] == ',' then 1 else 1 + TokenLength(s[1..])
  }

  /** The tokens `strtok` returns for `s` with the delimiter ",": the maximal
      runs of non-comma characters, in order; empty tokens never appear. */
  function Tokens(s: string): (toks: seq<string>)
    ensures forall i :: 0 <= i < |toks| ==> |toks[i]| > 0 && ',' !in toks[i]
    decreases |s|
  {
    if |s| == 0 then []
    else if s[0] == ',' then Tokens(s[1..])
    else
      var k := TokenLength(s);
      assert ',' !in s[..k] by {
        forall i | 0 <= i < k ensures s[..k][i] != ',' { }
      }
      [s[..k]] + Tokens(s[k..])
  }

  /** A token ends exactly at the first comma: any length with the properties
      of `TokenLength` is `TokenLength`. */
  lemma TokenLengthUnique(s: string, k: nat)
    requires |s| > 0 && s[0] != ','
    requires 0 < k <= |s| && (forall i :: 0 <= i < k ==> s[i] != ',') && (k < |s| ==> s[k] == ',')
    ensures k == TokenLength(s)
  {
  }

  /** A non-empty string without commas is one token. */
  lemma TokensOfWord(s: string)
    requires |s| > 0 && ',' !in s
    ensures Tokens(s) == [s]
  {
    TokenLengthUnique(s, |s|);
    assert s[..|s|] == s;
    assert s[|s|..] == [];
  }

  /** Splitting at a comma: the tokens of `a + "," + b` are the tokens of `a`
      followed by the tokens of `b`, whatever `a` and `b` are. */
  lemma {:induction false} TokensAtComma(a: string, b: string)
    ensures Tokens(a + [','] + b) == Tokens(a) + Tokens(b)
    decreases |a|, 1
  {
    var s := a + [','] + b;
    if |a| == 0 {
      assert s[1..] == b;
    } else if a[0] == ',' {
      assert s[1..] == a[1..] + [','] + b;
      TokensAtComma(a[1..], b);
    } else {
      TokensAtCommaWord(a, b);
    }
  }

  /** The case of `TokensAtComma` where `a` starts with a token. */
  lemma {:induction false} TokensAtCommaWord(a: string, b: string)
    requires |a| > 0 && a[0] != ','
    ensures Tokens(a + [','] + b) == Tokens(a) + Tokens(b)
    decreases |a|, 0
  {
    var s := a + [','] + b;
    var k := TokenLength(a);
    assert Tokens(s) == [a[..k]] + Tokens(s[k..]) by {
      TokenLengthUnique(s, k);
      assert s[..k] == a[..k];
    }
    assert Tokens(a) == [a[..k]] + Tokens(a[k..]);
    if k == |a| {
      assert Tokens(s[k..]) == Tokens(b) by {
        assert s[k..][1..] == b;
      }
      assert a[k..] == [];
    } else {
      assert s[k..] == a[k..] + [','] + b;
      TokensAtComma(a[k..], b);
    }
  }

  // ---------------------------------------------------------------------------
  // The -i loop

  /** The interface list after `addInterface` was called with each token of
      `toks` in turn, starting from `ifs`. */
  function AddAll(ifs: seq<Interface>, toks: seq<string>): seq<Interface>
  {
    if |toks| == 0 then ifs else AddInterface(AddAll(ifs, toks[..|toks| - 1]), toks[|toks| - 1])
  }

  /** The valid names among `names`, in order. */
  function ValidOnly(names: seq<string>): (r: seq<string>)
    ensures forall i :: 0 <= i < |r| ==> IsValidInterfaceName(r[i])
  {
    if |names| == 0 then []
    else if IsValidInterfaceName(names[|names| - 1]) then ValidOnly(names[..|names| - 1]) + [names[|names| - 1]]
    else ValidOnly(names[..|names| - 1])
  }

  /** `names` back to front. */
  function Reverse(names: seq<string>): (r: seq<string>)
    ensures |r| == |names| && forall i :: 0 <= i < |names| ==> r[i] == names[|names| - 1 - i]
  {
    if |names| == 0 then [] else [names[|names| - 1]] + Reverse(names[..|names| - 1])
  }

  /** Fresh, not yet resolved interface nodes for `names`, in order. */
  function Unresolved(names: seq<string>): (r: seq<Interface>)
    ensures |r| == |names| && forall i :: 0 <= i < |names| ==> r[i] == Interface(names[i], UNRESOLVED)
  {
    if |names| == 0 then [] else [Interface(names[0], UNRESOLVED)] + Unresolved(names[1..])
  }

  /** Adding tokens one at a time at the head leaves the valid ones in
      reverse order in front of the list they were added to; invalid ones
      are dropped. */
  lemma {:induction false} AddAllReverses(ifs: seq<Interface>, toks: seq<string>)
    ensures AddAll(ifs, toks) == Unresolved(Reverse(ValidOnly(toks))) + ifs
  {
    if |toks| > 0 {
      var init := toks[..|toks| - 1];
      var last := toks[|toks| - 1];
      AddAllReverses(ifs, init);
      if IsValidInterfaceName(last) {
        var v := ValidOnly(init);
        assert Reverse(v + [last]) == [last] + Reverse(v);
        assert Unresolved([last] + Reverse(v)) == [Interface(last, UNRESOLVED)] + Unresolved(Reverse(v));
      }
    }
  }

  /** Adding the tokens of one list and then of another is adding the tokens
      of both. */
  lemma {:induction false} AddAllAppend(ifs: seq<Interface>, a: seq<string>, b: seq<string>)
    ensures AddAll(AddAll(ifs, a), b) == AddAll(ifs, a + b)
    decreases |b|
  {
    if |b| == 0 {
      assert a + b == a;
    } else {
      var init := b[..|b| - 1];
      assert (a + b)[..|a + b| - 1] == a + init;
      AddAllAppend(ifs, a, init);
    }
  }

  // ---------------------------------------------------------------------------
  // handle_command_line

  /** One option as `getopt(argc, argv, "i:dt:h")` reports it. `Unknown` is
      its '?': an option letter not in the string, or `-i`/`-t` with no
      argument. */
  datatype Opt = Interfaces(arg: string) | Debug | Timeout(arg: string) | Help | Unknown

  /** The fields `handle_command_line` sets. */
  datatype Settings = Settings(interfaces: seq<Interface>, debuggingEnabled: bool, timeoutInterval: int)

  /** The values set before the option loop: no interfaces, debugging off,
      a 5-second timeout. */
  const DEFAULTS: Settings := Settings([], false, 5)

  /** An option after which the process exits. */
  predicate Exits(o: Opt)
  {
    o.Help? || o.Unknown?
  }

  /** The settings after one option that does not exit. */
  function Configure(s: Settings, o: Opt, atoi: string -> int): Settings
  {
    match o
    case Interfaces(arg) => s.(interfaces := AddAll(s.interfaces, Tokens(arg)))
    case Debug => s.(debuggingEnabled := true)
    case Timeout(arg) => s.(timeoutInterval := atoi(arg))
    case Help => s
    case Unknown => s
  }

  /** The settings after the options `opts`, from the defaults. */
  function ConfigureAll(opts: seq<Opt>, atoi: string -> int): Settings
  {
    if |opts| == 0 then DEFAULTS
    else Configure(ConfigureAll(opts[..|opts| - 1], atoi), opts[|opts| - 1], atoi)
  }

  /** How many options the loop handles: up to the first one that exits. */
  function Handled(opts: seq<Opt>): (n: nat)
    ensures n <= |opts| && (forall i :: 0 <= i < n ==> !Exits(opts[i])) && (n < |opts| ==> Exits(opts[n]))
  {
    if |opts| == 0 || Exits(opts[0]) then 0 else 1 + Handled(opts[1..])
  }

  /** The exit status when the options end the process: success after `-h`,
      failure after anything `getopt` rejects; `None` when the loop runs out
      of options. */
  function ExitOf(opts: seq<Opt>): (r: Option<ExitStatus>)
    ensures r.None? <==> forall i :: 0 <= i < |opts| ==> !Exits(opts[i])
  {
    var n := Handled(opts);
    if n == |opts| then None
    else if opts[n].Help? then Some(Success)
    else Some(Failure)
  }

  /** `-h` exits with success and a rejected option with failure, whatever
      follows; the options before them still took effect. */
  lemma ExitAt(opts: seq<Opt>, n: nat)
    requires n < |opts| && Exits(opts[n]) && forall i :: 0 <= i < n ==> !Exits(opts[i])
    ensures Handled(opts) == n
    ensures ExitOf(opts) == Some(if opts[n].Help? then Success else Failure)
  {
  }

  /** Debugging is on if and only if `-d` was given. */
  lemma {:induction false} DebugIff(opts: seq<Opt>, atoi: string -> int)
    ensures ConfigureAll(opts, atoi).debuggingEnabled <==> Debug in opts
  {
    if |opts| > 0 {
      var init := opts[..|opts| - 1];
      DebugIff(init, atoi);
      assert opts == init + [opts[|opts| - 1]];
    }
  }

  /** The index of the last `-t` in `opts`, if any. */
  function LastTimeout(opts: seq<Opt>): (r: Option<nat>)
    ensures r.Some? ==> r.value < |opts| && opts[r.value].Timeout?
                        && forall j :: r.value < j < |opts| ==> !opts[j].Timeout?
    ensures r.None? ==> forall j :: 0 <= j < |opts| ==> !opts[j].Timeout?
  {
    if |opts| == 0 then None
    else if opts[|opts| - 1].Timeout? then Some(|opts| - 1)
    else LastTimeout(opts[..|opts| - 1])
  }

  /** The timeout is what `atoi` makes of the last `-t` argument, unchecked,
      or 5 without one. */
  lemma {:induction false} TimeoutIsLast(opts: seq<Opt>, atoi: string -> int)
    ensures ConfigureAll(opts, atoi).timeoutInterval
            == match LastTimeout(opts) case Some(i) => atoi(opts[i].arg) case None => 5
  {
    if |opts| > 0 {
      TimeoutIsLast(opts[..|opts| - 1], atoi);
    }
  }

  /** The tokens of every `-i` argument, in option order. */
  function InterfaceTokens(opts: seq<Opt>): seq<string>
  {
    if |opts| == 0 then []
    else
      var more := if opts[|opts| - 1].Interfaces? then Tokens(opts[|opts| - 1].arg) else [];
      InterfaceTokens(opts[..|opts| - 1]) + more
  }

  /** Repeated `-i` options accumulate: the interface list holds every valid
      name of every `-i` argument, last one first. */
  lemma {:induction false} InterfacesReversed(opts: seq<Opt>, atoi: string -> int)
    ensures ConfigureAll(opts, atoi).interfaces == Unresolved(Reverse(ValidOnly(InterfaceTokens(opts))))
  {
    InterfacesAreAddAll(opts, atoi);
    AddAllReverses([], InterfaceTokens(opts));
  }

  lemma {:induction false} InterfacesAreAddAll(opts: seq<Opt>, atoi: string -> int)
    ensures ConfigureAll(opts, atoi).interfaces == AddAll([], InterfaceTokens(opts))
  {
    if |opts| > 0 {
      var init := opts[..|opts| - 1];
      InterfacesAreAddAll(init, atoi);
      if opts[|opts| - 1].Interfaces? {
        AddAllAppend([], InterfaceTokens(init), Tokens(opts[|opts| - 1].arg));
      } else {
        var before := InterfaceTokens(init);
        assert before + [] == before;
        assert InterfaceTokens(opts) == before;
      }
    }
  }

  /** The comma-splitting loop for one `-i` argument: each token in turn is
      offered to `addInterface`, which rebinds the list head. */
  method AddTokens(env: Environment, arg: string)
    modifies env
    ensures env.interfaces == AddAll(old(env.interfaces), Tokens(arg))
    ensures env.devices == old(env.devices)
    ensures env.debuggingEnabled == old(env.debuggingEnabled) && env.timeoutInterval == old(env.timeoutInterval)
  {
    var toks := Tokens(arg);
    var t := 0;
    while t < |toks|
      invariant 0 <= t <= |toks|
      invariant env.interfaces == AddAll(old(env.interfaces), toks[..t])
      invariant env.devices == old(env.devices)
      invariant env.debuggingEnabled == old(env.debuggingEnabled) && env.timeoutInterval == old(env.timeoutInterval)
    {
      assert toks[..t + 1][..t] == toks[..t];
      env.interfaces := AddInterface(env.interfaces, toks[t]);
      t := t + 1;
    }
    assert toks[..t] == toks;
  }

  /** The fields `handle_command_line` sets, as they stand in `env`. */
  function Current(env: Environment): Settings
    reads env
  {
    Settings(env.interfaces, env.debuggingEnabled, env.timeoutInterval)
  }

  /** One pass of the `getopt` switch for an option that does not exit. */
  method ApplyOption(env: Environment, o: Opt, atoi: string -> int)
    requires !Exits(o)
    modifies env
    ensures Current(env) == Configure(old(Current(env)), o, atoi)
    ensures env.devices == old(env.devices)
  {
    match o {
      case Interfaces(arg) =>
        AddTokens(env, arg);
      case Debug =>
        env.debuggingEnabled := true;
      case Timeout(arg) =>
        env.timeoutInterval := atoi(arg);
    }
  }

  /** `handle_command_line`: sets the defaults and the device list to empty,
      then applies the options in order until one of them exits the process.
      `exit` is the status it exits with, `None` when parsing completes. */
  method HandleCommandLine(env: Environment, opts: seq<Opt>, atoi: string -> int) returns (exit: Option<ExitStatus>)
    modifies env
    ensures exit == ExitOf(opts)
    ensures Current(env) == ConfigureAll(opts[..Handled(opts)], atoi)
    ensures env.devices == []
  {
    env.debuggingEnabled := false;
    env.timeoutInterval := 5;
    env.interfaces := [];
    env.devices := [];
    var k := 0;
    while k < |opts|
      invariant 0 <= k <= |opts| && forall i :: 0 <= i < k ==> !Exits(opts[i])
      invariant Current(env) == ConfigureAll(opts[..k], atoi)
      invariant env.devices == []
    {
      if Exits(opts[k]) {
        ExitAt(opts, k);
        return if opts[k].Help? then Some(Success) else Some(Failure);
      }
      assert opts[..k + 1][..k] == opts[..k];
      ApplyOption(env, opts[k], atoi);
      k := k + 1;
    }
    assert opts[..k] == opts;
    exit := None;
  }
}
