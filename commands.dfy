/**
 * Turning a rule back into the argument list of an `iptables` command
 * (`rule_to_command`), and prefixing it with the insert or delete switch
 * (`exe_rule`). Only the protocol, the source and destination ports found in
 * the extra text, the addresses and the target are carried over.
 */
module Commands {
  import opened Wrappers
  import opened PyText
  import opened Rules

  /** The protocol value that means "any protocol" and is left off the command. */
  const AnyProtocol: string := "all"

  /** `e.split(':')[1]` for a `dpt:` or `spt:` token: the text between its first and second colon. */
  function PortValue(tok: string): string
    requires StartsWith(tok, "dpt:") || StartsWith(tok, "spt:")
  {
    assert tok[3] == tok[..4][3] == ':';
    SplitOn(tok, ':')[1]
  }

  /** A `dpt:`/`spt:` token yields the text after its tag, up to the next colon if any. */
  lemma PortValueAfterTag(tag: string, rest: string)
    requires tag == "dpt" || tag == "spt"
    ensures StartsWith(tag + ":" + rest, tag + ":")
    ensures PortValue(tag + ":" + rest) == SplitOn(rest, ':')[0]
    ensures ':' !in rest ==> PortValue(tag + ":" + rest) == rest
  {
    assert (tag + ":" + rest)[3] == ':';
    assert tag + ":" + rest == tag + [':'] + rest;
    SplitAfterFirst(tag, ':', rest);
    if ':' !in rest {
      JoinSplit(rest, ':');
      NoSeparatorOnePiece(rest, ':');
    }
  }

  /** Text without the separator splits into itself alone. */
  lemma {:induction false} NoSeparatorOnePiece(s: string, sep: char)
    requires sep !in s
    ensures SplitOn(s, sep) == [s]
  {
    if s != [] {
      assert sep !in s[1..] && s[0] != sep;
      NoSeparatorOnePiece(s[1..], sep);
      assert s == [s[0]] + s[1..];
    }
  }

  /** The switches one extra token contributes: `--dport` for `dpt:`, `--sport` for `spt:`. */
  function TokenArgs(e: string): seq<string>
  {
    (if StartsWith(e, "dpt:") then ["--dport", PortValue(e)] else [])
    + (if StartsWith(e, "spt:") then ["--sport", PortValue(e)] else [])
  }

  /** The switches a sequence of extra tokens contributes, token by token, in order. */
  function PortArgs(es: seq<string>): seq<string>
  {
    if es == [] then [] else PortArgs(es[..|es| - 1]) + TokenArgs(es[|es| - 1])
  }

  /** A switch that is present exactly when `present`, with its value. */
  function Optional(present: bool, flag: string, v: string): seq<string>
  {
    if present then [flag, v] else []
  }

  /**
   * The switches of a rule's command, after the chain name, in the order `rule_to_command` appends
   * them: from the rule's protocol, the port switches of its extra text, its addresses and its target.
   */
  function SwitchList(prot: string, ports: seq<string>, destination: string, source: string, target: string): seq<string>
  {
    Optional(prot != AnyProtocol, "-p", prot)
    + ports
    + Optional(destination != AnyAddress, "-d", destination)
    + Optional(source != AnyAddress, "-s", source)
    + ["-j", target]
  }

  /** `rule_to_command(r)`; a rule whose chain is not a built-in chain fails its assertion (iptables.py:154). */
  function Command(r: Rule): Result<seq<string>, Error>
  {
    if r.chain.None? || r.chain.value !in Chains then Err(UnsupportedChain)
    else if r.target.None? then Err(MissingTarget)
    else Ok([r.chain.value] + SwitchList(r.prot, PortArgs(Tokens(r.extra)), r.destination, r.source, r.target.value))
  }

  /** `rule_to_command`: the argument list, built by appending as iptables.py:155-181 does. */
  method RuleToCommand(r: Rule) returns (res: Result<seq<string>, Error>)
    ensures res == Command(r)
  {
    if r.chain.None? || r.chain.value !in Chains {
      return Err(UnsupportedChain);
    }
    if r.target.None? {
      return Err(MissingTarget);
    }
    var lcmd := [r.chain.value];
    // `tail` follows what has been appended after the chain name
    ghost var tail: seq<string> := [];
    if r.prot != AnyProtocol {
      lcmd := lcmd + ["-p", r.prot];
    }
    tail := Optional(r.prot != AnyProtocol, "-p", r.prot);
    assert lcmd == [r.chain.value] + tail;
    ghost var before := lcmd;
    if r.extra != "" {
      lcmd := AppendPortArgs(lcmd, Tokens(r.extra));
    } else {
      assert TrimLeft(r.extra) == [];
      assert PortArgs(Tokens(r.extra)) == [] && lcmd == before + PortArgs(Tokens(r.extra));
    }
    ConsAssoc(r.chain.value, tail, PortArgs(Tokens(r.extra)));
    tail := tail + PortArgs(Tokens(r.extra));
    assert lcmd == [r.chain.value] + tail;
    if r.destination != AnyAddress {
      lcmd := lcmd + ["-d", r.destination];
    }
    ConsAssoc(r.chain.value, tail, Optional(r.destination != AnyAddress, "-d", r.destination));
    tail := tail + Optional(r.destination != AnyAddress, "-d", r.destination);
    assert lcmd == [r.chain.value] + tail;
    if r.source != AnyAddress {
      lcmd := lcmd + ["-s", r.source];
    }
    ConsAssoc(r.chain.value, tail, Optional(r.source != AnyAddress, "-s", r.source));
    tail := tail + Optional(r.source != AnyAddress, "-s", r.source);
    assert lcmd == [r.chain.value] + tail;
    lcmd := lcmd + ["-j", r.target.value];
    ConsAssoc(r.chain.value, tail, ["-j", r.target.value]);
    tail := tail + ["-j", r.target.value];
    assert lcmd == [r.chain.value] + tail;
    assert tail == SwitchList(r.prot, PortArgs(Tokens(r.extra)), r.destination, r.source, r.target.value);
    res := Ok(lcmd);
  }

  lemma ConsAssoc(c: string, t: seq<string>, x: seq<string>)
    ensures [c] + t + x == [c] + (t + x)
  {
  }

  /** The loop of `rule_to_command` over the extra tokens: each `dpt:`/`spt:` token appends its port switch. */
  method AppendPortArgs(lcmd0: seq<string>, es: seq<string>) returns (lcmd: seq<string>)
    ensures lcmd == lcmd0 + PortArgs(es)
  {
    lcmd := lcmd0;
    var i := 0;
    while i < |es|
      invariant 0 <= i <= |es|
      invariant lcmd == lcmd0 + PortArgs(es[..i])
    {
      var e := es[i];
      ghost var before := lcmd;
      if StartsWith(e, "dpt:") {
        var dport := PortValue(e);
        lcmd := lcmd + ["--dport", dport];
      }
      ghost var middle := lcmd;
      if StartsWith(e, "spt:") {
        var sport := PortValue(e);
        lcmd := lcmd + ["--sport", sport];
      }
      TokenArgsAppended(before, middle, lcmd, e);
      PortArgsPrefix(lcmd0, es, i);
      i := i + 1;
    }
    assert es[..i] == es;
  }

  /** The two appends of one loop step add up to the token's switches. */
  lemma TokenArgsAppended(before: seq<string>, middle: seq<string>, after: seq<string>, e: string)
    requires middle == before + (if StartsWith(e, "dpt:") then ["--dport", PortValue(e)] else [])
    requires after == middle + (if StartsWith(e, "spt:") then ["--sport", PortValue(e)] else [])
    ensures after == before + TokenArgs(e)
  {
  }

  /** The switches of one more token extend those of the tokens before it. */
  lemma PortArgsPrefix(front: seq<string>, es: seq<string>, i: nat)
    requires i < |es|
    ensures front + PortArgs(es[..i + 1]) == front + PortArgs(es[..i]) + TokenArgs(es[i])
  {
    PortArgsStep(es, i);
  }

  lemma PortArgsStep(es: seq<string>, i: nat)
    requires i < |es|
    ensures PortArgs(es[..i + 1]) == PortArgs(es[..i]) + TokenArgs(es[i])
  {
    assert es[..i + 1][..i] == es[..i];
  }

  /** `exe_rule`'s arguments: `-I` or `-D` followed by the rule's command. */
  function ExeRuleArgs(modifier: string, r: Rule): (res: Result<seq<string>, Error>)
    ensures res.Err? && modifier != "I" && modifier != "D" ==> res.error == UnsupportedModifier(modifier)
  {
    if modifier != "I" && modifier != "D" then Err(UnsupportedModifier(modifier))
    else
      match Command(r)
      case Err(e) => Err(e)
      case Ok(cmd) => Ok(["-" + modifier] + cmd)
  }

  // ----- Reading a command back -----

  /** The switches `rule_to_command` can emit. */
  const KnownSwitches: set<string> := {"-p", "--dport", "--sport", "-d", "-s", "-j"}

  /** Switch/value pairs, every switch one the command can emit. */
  predicate WellPaired(args: seq<string>)
  {
    |args| % 2 == 0 && forall i :: 0 <= i < |args| / 2 ==> args[2 * i] in KnownSwitches
  }

  /** The values given to `flag` in a list of switch/value pairs, in order. */
  function ValuesOf(args: seq<string>, flag: string): seq<string>
  {
    if |args| < 2 then [] else (if args[0] == flag then [args[1]] else []) + ValuesOf(args[2..], flag)
  }

  /** The destination ports the extra tokens name, in order. */
  function DestPorts(es: seq<string>): seq<string>
  {
    if es == [] then []
    else DestPorts(es[..|es| - 1]) + (if StartsWith(es[|es| - 1], "dpt:") then [PortValue(es[|es| - 1])] else [])
  }

  /** The source ports the extra tokens name, in order. */
  function SourcePorts(es: seq<string>): seq<string>
  {
    if es == [] then []
    else SourcePorts(es[..|es| - 1]) + (if StartsWith(es[|es| - 1], "spt:") then [PortValue(es[|es| - 1])] else [])
  }

  lemma {:induction false} ValuesOfAppend(a: seq<string>, b: seq<string>, flag: string)
    requires |a| % 2 == 0
    ensures ValuesOf(a + b, flag) == ValuesOf(a, flag) + ValuesOf(b, flag)
  {
    if |a| >= 2 {
      assert (a + b)[2..] == a[2..] + b;
      ValuesOfAppend(a[2..], b, flag);
    } else {
      assert a + b == b;
    }
  }

  lemma WellPairedAppend(a: seq<string>, b: seq<string>)
    requires WellPaired(a) && WellPaired(b)
    ensures WellPaired(a + b)
  {
    forall i | 0 <= i < |a + b| / 2 ensures (a + b)[2 * i] in KnownSwitches {
      if 2 * i < |a| {
        assert (a + b)[2 * i] == a[2 * i];
      } else {
        assert (a + b)[2 * i] == b[2 * (i - |a| / 2)];
      }
    }
  }

  /** A single switch with its value. */
  lemma OnePair(flag: string, v: string, other: string)
    requires flag in KnownSwitches
    ensures WellPaired([flag, v])
    ensures ValuesOf([flag, v], other) == if other == flag then [v] else []
  {
    assert [flag, v][2..] == [];
  }

  /** The port switches: well paired, destination ports under `--dport`, source ports under `--sport`, nothing else. */
  lemma {:induction false} PortArgsDecode(es: seq<string>, flag: string)
    ensures WellPaired(PortArgs(es))
    ensures ValuesOf(PortArgs(es), flag) ==
      if flag == "--dport" then DestPorts(es) else if flag == "--sport" then SourcePorts(es) else []
  {
    if es != [] {
      var init, e := es[..|es| - 1], es[|es| - 1];
      PortArgsDecode(init, flag);
      var d := if StartsWith(e, "dpt:") then ["--dport", PortValue(e)] else [];
      var s := if StartsWith(e, "spt:") then ["--sport", PortValue(e)] else [];
      assert WellPaired(d) && ValuesOf(d, flag) == (if flag == "--dport" && StartsWith(e, "dpt:") then [PortValue(e)] else []) by {
        if StartsWith(e, "dpt:") { OnePair("--dport", PortValue(e), flag); }
      }
      assert WellPaired(s) && ValuesOf(s, flag) == (if flag == "--sport" && StartsWith(e, "spt:") then [PortValue(e)] else []) by {
        if StartsWith(e, "spt:") { OnePair("--sport", PortValue(e), flag); }
      }
      WellPairedAppend(d, s);
      ValuesOfAppend(d, s, flag);
      WellPairedAppend(PortArgs(init), d + s);
      ValuesOfAppend(PortArgs(init), d + s, flag);
    }
  }

  lemma OptionalDecode(present: bool, flag: string, v: string, other: string)
    requires flag in KnownSwitches
    ensures WellPaired(Optional(present, flag, v))
    ensures ValuesOf(Optional(present, flag, v), other) == if present && other == flag then [v] else []
  {
    if present { OnePair(flag, v, other); }
  }

  /**
   * Reading the command back: it names the rule's chain first, then switch/value pairs in which
   * `-p` carries the protocol unless it is "all", `-d`/`-s` carry the addresses unless they are
   * "0.0.0.0/0", `--dport`/`--sport` carry the ports of the extra text, and `-j` the target.
   */
  lemma {:induction false} CommandDecodes(r: Rule, flag: string)
    requires Command(r).Ok?
    ensures var cmd := Command(r).value;
      && |cmd| >= 3 && Some(cmd[0]) == r.chain && WellPaired(cmd[1..])
      && ValuesOf(cmd[1..], flag) ==
        (if r.prot != AnyProtocol && flag == "-p" then [r.prot] else [])
        + (if flag == "--dport" then DestPorts(Tokens(r.extra)) else if flag == "--sport" then SourcePorts(Tokens(r.extra)) else [])
        + (if r.destination != AnyAddress && flag == "-d" then [r.destination] else [])
        + (if r.source != AnyAddress && flag == "-s" then [r.source] else [])
        + (if flag == "-j" then [r.target.value] else [])
  {
    var es := Tokens(r.extra);
    var switches := SwitchList(r.prot, PortArgs(es), r.destination, r.source, r.target.value);
    ConsTail(r.chain.value, switches);
    SwitchesDecode(r.prot, es, r.destination, r.source, r.target.value, flag);
  }

  /** The switches after the chain name, read back: see `CommandDecodes`. */
  lemma SwitchesDecode(prot: string, es: seq<string>, destination: string, source: string, target: string, flag: string)
    ensures var switches := SwitchList(prot, PortArgs(es), destination, source, target);
      && |switches| >= 2 && WellPaired(switches)
      && ValuesOf(switches, flag) ==
        (if prot != AnyProtocol && flag == "-p" then [prot] else [])
        + (if flag == "--dport" then DestPorts(es) else if flag == "--sport" then SourcePorts(es) else [])
        + (if destination != AnyAddress && flag == "-d" then [destination] else [])
        + (if source != AnyAddress && flag == "-s" then [source] else [])
        + (if flag == "-j" then [target] else [])
  {
    var p := Optional(prot != AnyProtocol, "-p", prot);
    var ports := PortArgs(es);
    var d := Optional(destination != AnyAddress, "-d", destination);
    var s := Optional(source != AnyAddress, "-s", source);
    var j := ["-j", target];
    assert SwitchList(prot, ports, destination, source, target) == p + ports + d + s + j;
    OptionalDecode(prot != AnyProtocol, "-p", prot, flag);
    PortArgsDecode(es, flag);
    OptionalDecode(destination != AnyAddress, "-d", destination, flag);
    OptionalDecode(source != AnyAddress, "-s", source, flag);
    OnePair("-j", target, flag);
    BlocksDecode(p, ports, d, s, j, flag,
      if prot != AnyProtocol && flag == "-p" then [prot] else [],
      if flag == "--dport" then DestPorts(es) else if flag == "--sport" then SourcePorts(es) else [],
      if destination != AnyAddress && flag == "-d" then [destination] else [],
      if source != AnyAddress && flag == "-s" then [source] else [],
      if flag == "-j" then [target] else []);
  }

  /** Five blocks of switch/value pairs in a row: well paired, and each switch's values block by block. */
  lemma BlocksDecode(p: seq<string>, ports: seq<string>, d: seq<string>, s: seq<string>, j: seq<string>, flag: string,
                     vp: seq<string>, vports: seq<string>, vd: seq<string>, vs: seq<string>, vj: seq<string>)
    requires WellPaired(p) && WellPaired(ports) && WellPaired(d) && WellPaired(s) && WellPaired(j)
    requires ValuesOf(p, flag) == vp && ValuesOf(ports, flag) == vports && ValuesOf(d, flag) == vd
    requires ValuesOf(s, flag) == vs && ValuesOf(j, flag) == vj
    ensures WellPaired(p + ports + d + s + j)
    ensures ValuesOf(p + ports + d + s + j, flag) == vp + vports + vd + vs + vj
  {
    WellPairedAppend(p, ports);
    ValuesOfAppend(p, ports, flag);
    WellPairedAppend(p + ports, d);
    ValuesOfAppend(p + ports, d, flag);
    WellPairedAppend(p + ports + d, s);
    ValuesOfAppend(p + ports + d, s, flag);
    WellPairedAppend(p + ports + d + s, j);
    ValuesOfAppend(p + ports + d + s, j, flag);
  }

  /** A command exists exactly for rules in a built-in chain that have a target. */
  lemma CommandDefined(r: Rule)
    ensures Command(r).Ok? <==> r.chain.Some? && r.chain.value in Chains && r.target.Some?
  {
  }

  /** A rule outside the built-in chains is refused for its chain, whether or not it has a target. */
  lemma CommandRefusal(r: Rule)
    requires Command(r).Err?
    ensures Command(r).error == if r.chain.Some? && r.chain.value in Chains then MissingTarget else UnsupportedChain
  {
  }

  /** Every command ends with the `-j` switch naming the rule's target. */
  lemma CommandEndsWithTarget(r: Rule)
    requires Command(r).Ok?
    ensures var cmd := Command(r).value; |cmd| >= 3 && cmd[|cmd| - 2..] == ["-j", r.target.value]
  {
    var ports := PortArgs(Tokens(r.extra));
    EndsWithTarget(r.chain.value, SwitchList(r.prot, ports, r.destination, r.source, r.target.value),
                   r.prot, ports, r.destination, r.source, r.target.value);
  }

  /** The chain name followed by the switches ends with the `-j` switch and the target. */
  lemma EndsWithTarget(chain: string, switches: seq<string>, prot: string, ports: seq<string>,
                       destination: string, source: string, target: string)
    requires switches == SwitchList(prot, ports, destination, source, target)
    ensures var cmd := [chain] + switches; |cmd| >= 3 && cmd[|cmd| - 2..] == ["-j", target]
  {
    var front := Optional(prot != AnyProtocol, "-p", prot) + ports
      + Optional(destination != AnyAddress, "-d", destination) + Optional(source != AnyAddress, "-s", source);
    assert [chain] + switches == [chain] + front + ["-j", target];
  }

  /**
   * The command depends on nothing but the chain, protocol, addresses, port tokens and target:
   * rules that differ only in counters, position, option flags, interfaces or other extra text
   * give the same command.
   */
  lemma CommandDependsOnlyOn(a: Rule, b: Rule)
    requires a.chain == b.chain && a.target == b.target && a.prot == b.prot
    requires a.source == b.source && a.destination == b.destination
    requires PortArgs(Tokens(a.extra)) == PortArgs(Tokens(b.extra))
    ensures Command(a) == Command(b)
  {
    var ports := PortArgs(Tokens(a.extra));
    assert Command(b) == if b.chain.None? || b.chain.value !in Chains then Err(UnsupportedChain)
      else if b.target.None? then Err(MissingTarget)
      else Ok([b.chain.value] + SwitchList(b.prot, ports, b.destination, b.source, b.target.value));
  }

  /** Rules that compare equal and carry the same extra text give the same command. */
  lemma EqualRulesSameCommand(a: Rule, b: Rule)
    requires Equal(a, RuleValue(b)) && a.extra == b.extra
    ensures Command(a) == Command(b)
  {
    CommandDependsOnlyOn(a, b);
  }

  /** The interfaces never reach the command: rules for different interfaces share one command. */
  lemma CommandDropsInterfaces(r: Rule, inp: string, out: string)
    ensures Command(r.(inp := inp, out := out)) == Command(r)
  {
    CommandDependsOnlyOn(r, r.(inp := inp, out := out));
  }

  /** With `I` or `D`, `exe_rule`'s arguments are the switch followed by the rule's command, or the command's error. */
  lemma ExeRuleWraps(modifier: string, r: Rule)
    requires modifier == "I" || modifier == "D"
    ensures ExeRuleArgs(modifier, r).Ok? <==> Command(r).Ok?
    ensures Command(r).Err? ==> ExeRuleArgs(modifier, r) == Err(Command(r).error)
    ensures Command(r).Ok? ==> ExeRuleArgs(modifier, r).value == ["-" + modifier] + Command(r).value
  {
  }

  /** The insert and the delete command for a rule differ only in their first switch. */
  lemma InsertDeleteAgree(r: Rule)
    ensures ExeRuleArgs("I", r).Ok? <==> Command(r).Ok?
    ensures ExeRuleArgs("D", r).Ok? <==> Command(r).Ok?
    ensures Command(r).Err? ==> ExeRuleArgs("I", r) == ExeRuleArgs("D", r) == Err(Command(r).error)
    ensures Command(r).Ok? ==>
      && ExeRuleArgs("I", r).value[0] == "-I" && ExeRuleArgs("D", r).value[0] == "-D"
      && ExeRuleArgs("I", r).value[1..] == ExeRuleArgs("D", r).value[1..] == Command(r).value
  {
    ExeRuleWraps("I", r);
    ExeRuleWraps("D", r);
    if Command(r).Ok? {
      ConsTail("-I", Command(r).value);
      ConsTail("-D", Command(r).value);
    }
  }

  /** `exe_rule` accepts no modifier other than I and D, whatever the rule. */
  lemma ExeRuleRejects(modifier: string, r: Rule)
    requires modifier != "I" && modifier != "D"
    ensures ExeRuleArgs(modifier, r) == Err(UnsupportedModifier(modifier))
  {
  }

  /**
   * The rule in the description of `rule_to_command` (iptables.py:147-151): protocol tcp, the
   * extra text `tcp dpt:7373 spt:34543`, source 1.2.3.4 and destination "0.0.0.0/0". The port
   * tokens become switches and no `-d` switch is emitted for the "any" destination.
   */
  lemma CommandExample(extra: string)
    requires extra == "tcp dpt:7373 spt:34543"
    ensures Command(Rule(Some("INPUT"), Some("1"), Some("0"), Some("0"), Some("ACCEPT"), "tcp", "--", "*", "*",
                         "1.2.3.4", "0.0.0.0/0", extra))
         == Ok(["INPUT", "-p", "tcp", "--dport", "7373", "--sport", "34543", "-s", "1.2.3.4", "-j", "ACCEPT"])
  {
    ExampleTokens(extra, ["tcp", "dpt:7373", "spt:34543"]);
    assert "0.0.0.0/0" == AnyAddress;
    ExampleCommand("1.2.3.4", extra);
  }

  /** The same rule with both addresses "0.0.0.0/0": neither `-s` nor `-d` is emitted. */
  lemma CommandExampleAnyAddress(extra: string)
    requires extra == "tcp dpt:7373 spt:34543"
    ensures Command(Rule(Some("INPUT"), Some("1"), Some("0"), Some("0"), Some("ACCEPT"), "tcp", "--", "*", "*",
                         "0.0.0.0/0", "0.0.0.0/0", extra))
         == Ok(["INPUT", "-p", "tcp", "--dport", "7373", "--sport", "34543", "-j", "ACCEPT"])
  {
    ExampleTokens(extra, ["tcp", "dpt:7373", "spt:34543"]);
    assert "0.0.0.0/0" == AnyAddress;
    ExampleCommand(AnyAddress, extra);
  }

  /**
   * The example rule with any source address and any extra text that splits into the example's
   * tokens: `-s` appears exactly when the source address is not "any".
   */
  lemma ExampleCommand(source: string, extra: string)
    requires Tokens(extra) == ["tcp", "dpt:7373", "spt:34543"]
    ensures source != AnyAddress ==>
      Command(Rule(Some("INPUT"), Some("1"), Some("0"), Some("0"), Some("ACCEPT"), "tcp", "--", "*", "*",
                   source, AnyAddress, extra))
      == Ok(["INPUT", "-p", "tcp", "--dport", "7373", "--sport", "34543", "-s", source, "-j", "ACCEPT"])
    ensures source == AnyAddress ==>
      Command(Rule(Some("INPUT"), Some("1"), Some("0"), Some("0"), Some("ACCEPT"), "tcp", "--", "*", "*",
                   source, AnyAddress, extra))
      == Ok(["INPUT", "-p", "tcp", "--dport", "7373", "--sport", "34543", "-j", "ACCEPT"])
  {
    ExampleTokenArgs(Tokens(extra));
    ExampleUnfold(source, extra);
    ExampleAssembly(["-p", "tcp"], ["--dport", "7373", "--sport", "34543"], [],
                    Optional(source != AnyAddress, "-s", source), source);
  }

  lemma ExampleUnfold(source: string, extra: string)
    requires PortArgs(Tokens(extra)) == ["--dport", "7373", "--sport", "34543"]
    ensures Command(Rule(Some("INPUT"), Some("1"), Some("0"), Some("0"), Some("ACCEPT"), "tcp", "--", "*", "*",
                         source, AnyAddress, extra))
         == Ok(["INPUT"] + (["-p", "tcp"] + ["--dport", "7373", "--sport", "34543"] + []
                            + Optional(source != AnyAddress, "-s", source) + ["-j", "ACCEPT"]))
  {
  }

  lemma ExampleAssembly(p: seq<string>, ports: seq<string>, d: seq<string>, s: seq<string>, source: string)
    requires p == ["-p", "tcp"] && ports == ["--dport", "7373", "--sport", "34543"] && d == []
    requires s == [] || s == ["-s", source]
    ensures s == [] ==>
      ["INPUT"] + (p + ports + d + s + ["-j", "ACCEPT"])
      == ["INPUT", "-p", "tcp", "--dport", "7373", "--sport", "34543", "-j", "ACCEPT"]
    ensures s != [] ==>
      ["INPUT"] + (p + ports + d + s + ["-j", "ACCEPT"])
      == ["INPUT", "-p", "tcp", "--dport", "7373", "--sport", "34543", "-s", source, "-j", "ACCEPT"]
  {
  }

  /** `"tcp dpt:7373 spt:34543".split()` */
  lemma ExampleTokens(extra: string, es: seq<string>)
    requires extra == "tcp dpt:7373 spt:34543" && es == ["tcp", "dpt:7373", "spt:34543"]
    ensures Tokens(extra) == es
    ensures |es| == 3 && es[0] == "tcp" && es[1] == "dpt:7373" && es[2] == "spt:34543"
  {
    ExampleJoin(es);
    ExampleWords(es);
    TokensOfJoin(es);
  }

  /** `" ".join(["tcp", "dpt:7373", "spt:34543"])` */
  lemma ExampleJoin(es: seq<string>)
    requires es == ["tcp", "dpt:7373", "spt:34543"]
    ensures JoinWith(es, " ") == "tcp dpt:7373 spt:34543"
  {
    assert es[1..] == ["dpt:7373", "spt:34543"] && es[1..][1..] == ["spt:34543"];
    assert JoinWith(es[1..][1..], " ") == "spt:34543";
    assert JoinWith(es[1..], " ") == "dpt:7373" + " " + "spt:34543";
  }

  /** The example's tokens are words. */
  lemma ExampleWords(es: seq<string>)
    requires es == ["tcp", "dpt:7373", "spt:34543"]
    ensures AllWords(es)
  {
    assert NoSpace(es[0]) && NoSpace(es[1]) && NoSpace(es[2]);
  }

  /** The port switches of the example's tokens. */
  lemma ExampleTokenArgs(es: seq<string>)
    requires |es| == 3 && es[0] == "tcp" && es[1] == "dpt:7373" && es[2] == "spt:34543"
    ensures PortArgs(es) == ["--dport", "7373", "--sport", "34543"]
  {
    ghost var a, b, c := TokenArgs(es[0]), TokenArgs(es[1]), TokenArgs(es[2]);
    assert a == [] by {
      assert !StartsWith(es[0], "dpt:") && !StartsWith(es[0], "spt:");
    }
    assert b == ["--dport", "7373"] by {
      TaggedTokenArgs(es[1], "dpt", "7373");
    }
    assert c == ["--sport", "34543"] by {
      TaggedTokenArgs(es[2], "spt", "34543");
    }
    PortArgsOfThree(es);
    assert a + b + c == ["--dport", "7373", "--sport", "34543"];
  }

  lemma PortArgsOfThree(es: seq<string>)
    requires |es| == 3
    ensures PortArgs(es) == TokenArgs(es[0]) + TokenArgs(es[1]) + TokenArgs(es[2])
  {
    PortArgsStep(es, 0);
    PortArgsStep(es, 1);
    PortArgsStep(es, 2);
    assert es[..0] == [] && es[..3] == es;
    ThreeSteps(PortArgs(es[..0]), PortArgs(es[..1]), PortArgs(es[..2]), PortArgs(es[..3]),
               TokenArgs(es[0]), TokenArgs(es[1]), TokenArgs(es[2]));
  }

  lemma ThreeSteps(x0: seq<string>, x1: seq<string>, x2: seq<string>, x3: seq<string>,
                   t0: seq<string>, t1: seq<string>, t2: seq<string>)
    requires x0 == [] && x1 == x0 + t0 && x2 == x1 + t1 && x3 == x2 + t2
    ensures x3 == t0 + t1 + t2
  {
  }

  /** The switch a `dpt:` or `spt:` token without a further colon gives. */
  lemma TaggedTokenArgs(e: string, tag: string, port: string)
    requires tag == "dpt" || tag == "spt"
    requires ':' !in port && e == tag + ":" + port
    ensures TokenArgs(e) == [if tag == "dpt" then "--dport" else "--sport", port]
  {
    PortValueAfterTag(tag, port);
    assert e[..4] == tag + ":";
    assert StartsWith(e, "dpt:") <==> tag == "dpt";
    assert StartsWith(e, "spt:") <==> tag == "spt";
  }
}
