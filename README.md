# rfw iptables core, modelled in Dafny

This project models the rule-handling core of rfw's `rfw_service/iptables.py`. It covers:

- **The `Rule` value object** (module `Rules`, `rules.dfy`). A rule is built positionally from the twelve attributes `chain num pkts bytes target prot opt inp out source destination extra`, or from a dictionary of attributes laid over the documented defaults. It is compared with `==`/`!=`, which look only at chain, target, protocol, options, interfaces and addresses, never at the counters, the line number or the extra text.
- **The listing parser** `_iptables_list` (module `Listing`, `listing.dfy`). It reads the text printed by `iptables -n -L -v -x --line-numbers`:
  - a blank line resets the current chain;
  - a `Chain NAME ...` line for INPUT, OUTPUT or FORWARD sets the current chain;
  - a line mentioning both `source` and `destination` must be exactly the expected column header;
  - inside a chain, a line whose first column is a number becomes a rule. That rule holds the chain, the first ten columns, and the remaining columns joined with single spaces as the extra text.

  The parse is specified as a state machine over classified lines (`Classify`, `ParseFrom`). `ParseListing` is the line-by-line loop, proved to compute it. `ParsedRules` states what a successful parse returns: one rule per rule line, in order, each built from its own line. `ParseFails` states when the parse fails: a column header other than the expected one, or a rule line with fewer than ten columns. Every other listing parses.
- **`rule_to_command`** and the argument list of **`exe_rule`** (module `Commands`, `commands.dfy`). The chain name comes first. Then come `-p` unless the protocol is `all`, `--dport`/`--sport` for each `dpt:`/`spt:` token of the extra text, `-d`/`-s` unless the address is `0.0.0.0/0`, and `-j` with the target. `exe_rule` puts `-I` or `-D` in front. `CommandDecodes` reads a command back as switch/value pairs and proves which values each switch carries.
- **`Iptables.find`** (module `Query` for the specification, `iptables.dfy` for the class). The class `Iptables` holds the rules of one listing in a `const` field, set once by the constructor. `Find` runs the nested loops of `find` and is proved equal to `Select`: the rules that match every queried field, in their original order.
- **Python 2 string operations** (module `PyText`, `pytext.dfy`): `strip()`, `split()`, `split(':')`, `' '.join`, `isdigit()`, the prefix test `e[:4] == ...` and the substring test `in`, with Python 2's byte-string whitespace ` \t\n\r\v\f`.

The docstring of `rule_to_command` (`iptables.py:147-148`) shows `'-d', '0.0.0.0/0'` in its sample output. The code at lines 174-176 never emits a switch for that address, and the model follows the code (`Commands.CommandExample`, `Commands.CommandExampleAnyAddress`). The extra text `tcp dpt:7373 spt:34543` named by the TODO at line 151 becomes the `--dport`/`--sport` switches.

Behaviours of `iptables.py` that the model keeps as the code has them:

- A positional rule takes twelve values: the chain plus the eleven columns of `RULE_ATTRS` (line 13).
- A rule line with fewer than ten columns makes the whole parse fail with `Rules.Error.WrongArity`, because the namedtuple constructor called at line 140 refuses the short list.
- A `Chain` line naming an untracked chain leaves the current chain unchanged; only a blank line resets it (lines 117-123).
- The three checks the code writes as `assert` are modelled as errors:
  - the column header (`HeaderMismatch`);
  - the command's chain (`UnsupportedChain`);
  - the `exe_rule` modifier (`UnsupportedModifier`).

## Model

| member | source | states |
|---|---|---|
| Rules.FieldNamed | rfw_service/iptables.py:13 | an attribute name denotes a field exactly when that field's name is the given name |
| Rules.FieldNamesRoundTrip | rfw_service/iptables.py:13 | every attribute name leads back to its own field, so no two fields share a name |
| Rules.Get | rfw_service/iptables.py:220 | `getattr(r, param)`: the value a rule holds in a field, `None` for an unset chain, line number, counter or target; what queries compare (`Query.Matches`) |
| Rules.Default | rfw_service/iptables.py:33 | the dictionary defaults: `None` for chain, num, pkts, bytes and target, `all`, `--`, `*`, `*`, `0.0.0.0/0`, `0.0.0.0/0` and the empty extra text; `Rules.FromFieldsAssigns` proves an absent key takes it |
| Rules.FromList | rfw_service/iptables.py:30-31 | positional construction succeeds exactly for twelve values and otherwise fails with the count given |
| Rules.FromListPositions | rfw_service/iptables.py:17-31 | a rule built from a list holds the i-th value in the i-th attribute of the declaration order |
| Rules.FromFields | rfw_service/iptables.py:32-35 | dictionary construction succeeds exactly when every key names an attribute, else fails as an unknown field |
| Rules.FromFieldsAssigns | rfw_service/iptables.py:33-35 | each attribute of a dictionary-built rule holds the dictionary's value if present, else the documented default |
| Rules.Equal | rfw_service/iptables.py:43-50 | rules are equal exactly when the other operand is a rule and all eight compared attributes agree |
| Rules.NotEqual | rfw_service/iptables.py:52-53 | `!=` holds exactly when the operand is no rule or some compared attribute differs |
| Rules.EqualIsEquivalence | rfw_service/iptables.py:43-50 | rule equality is reflexive, symmetric and transitive |
| Rules.EqualIgnoresVolatile | rfw_service/iptables.py:44-48 | changing num, pkts, bytes or extra never makes a rule unequal to itself |
| Rules.EqualSeesComparedFields | rfw_service/iptables.py:47-48 | rules that differ in any compared attribute are unequal and `!=` |
| PyText.TrimLeft | rfw_service/iptables.py:116 | the result is a suffix of the text that does not start with whitespace |
| PyText.TrimLeftRemovesSpace | rfw_service/iptables.py:116 | only whitespace is removed at the front |
| PyText.TrimRight | rfw_service/iptables.py:116 | the result is a prefix of the text that does not end with whitespace |
| PyText.TrimRightRemovesSpace | rfw_service/iptables.py:116 | only whitespace is removed at the back |
| PyText.StripEnds | rfw_service/iptables.py:116 | a stripped line neither starts nor ends with whitespace |
| PyText.StripIsSlice | rfw_service/iptables.py:116 | a stripped line is a slice of the line with only whitespace on either side |
| PyText.StripEmpty | rfw_service/iptables.py:116-117 | a stripped line is empty exactly when the line was all whitespace |
| PyText.Strip | rfw_service/iptables.py:116 | `line.strip()` as leading then trailing whitespace removed; its meaning is proved by `PyText.StripEnds`, `PyText.StripIsSlice` and `PyText.StripEmpty` |
| PyText.IsDigits | rfw_service/iptables.py:132 | `isdigit()`: a non-empty text of the characters `0` to `9` only |
| PyText.Contains | rfw_service/iptables.py:124 | the substring test `in`: the text occurs starting at some position of the line |
| PyText.StartsWith | rfw_service/iptables.py:165-169 | the prefix test `e[:4] == 'dpt:'` / `'spt:'`: the text is at least as long as the prefix and begins with it |
| PyText.Word | rfw_service/iptables.py:131 | the first run of a text is a prefix that ends at whitespace or at the end |
| PyText.WordHasNoSpace | rfw_service/iptables.py:131 | that run contains no whitespace |
| PyText.TokensAreWords | rfw_service/iptables.py:131 | every column produced by `split()` is non-empty and free of whitespace |
| PyText.TokensOfJoin | rfw_service/iptables.py:134 | splitting columns joined with single spaces gives the same columns back |
| PyText.TokensCons | rfw_service/iptables.py:131 | a word that ends at whitespace is the first column, and the rest are the columns of what follows |
| PyText.TokensOfWord | rfw_service/iptables.py:131 | a single word splits into itself alone |
| PyText.TokensSkipSpace | rfw_service/iptables.py:131 | any run of leading whitespace, spaces, tabs or other, does not change the columns |
| PyText.WordOfPrefix | rfw_service/iptables.py:131 | a word followed by whitespace is read back exactly |
| PyText.Tokens | rfw_service/iptables.py:131 | `split()` with no argument: the maximal runs of non-whitespace, in order; proved to give words (`PyText.TokensAreWords`) and to invert the single-space join (`PyText.TokensOfJoin`) |
| PyText.JoinWith | rfw_service/iptables.py:134 | `sep.join(parts)`: the parts with the separator between neighbours; `PyText.TokensOfJoin` and `PyText.JoinSplit` pair it with splitting |
| PyText.SplitOn | rfw_service/iptables.py:166 | `split(':')` gives at least one piece, none containing `:`, at least two when `:` occurs, and the first piece runs up to the first `:` |
| PyText.JoinSplit | rfw_service/iptables.py:166 | joining the pieces of a split with the separator restores the text |
| PyText.SplitAfterFirst | rfw_service/iptables.py:166 | the second piece is what lies between the first and the second separator |
| Listing.ChainOf | rfw_service/iptables.py:120-122 | a line only ever opens one of INPUT, OUTPUT, FORWARD |
| Listing.ChainOfOpens | rfw_service/iptables.py:120-122 | a line opens a tracked chain exactly when it starts with `Chain `, the name and a space |
| Listing.WordRun | rfw_service/iptables.py:120 | `\w+` reads the longest prefix of word characters |
| Listing.WordRunOfPrefix | rfw_service/iptables.py:120 | word characters followed by a non-word character are exactly what `\w+` reads |
| Listing.ChainPattern | rfw_service/iptables.py:120 | `re.match(r"Chain (\w+) .*", line)` and its group: `Chain `, the longest run of word characters and a space; `Listing.PatternNamesChain` proves which lines capture a tracked chain |
| Listing.ChainOfIsPatternMatch | rfw_service/iptables.py:120-121 | the chain test is the regular-expression match `Chain (\w+) .*` followed by membership in the tracked chains |
| Listing.PatternNamesChain | rfw_service/iptables.py:120 | the pattern captures a tracked chain's name exactly when the line starts with `Chain NAME ` |
| Listing.PatternOfPrefix | rfw_service/iptables.py:120 | a line starting with `Chain `, a tracked name and a space captures that name |
| Listing.PrefixOfPattern | rfw_service/iptables.py:120 | a line whose captured name is `c` starts with `Chain `, `c` and a space |
| Listing.Headers | rfw_service/iptables.py:12 | `IPTABLES_HEADERS`: the ten column names a header line must split into |
| Listing.IsColumnHeader | rfw_service/iptables.py:124 | `"source" in line and "destination" in line` |
| Listing.IsRuleRow | rfw_service/iptables.py:132 | `columns and columns[0].isdigit()`: some column, the first of them all digits |
| Listing.Classify | rfw_service/iptables.py:116-132 | a chain line names a tracked chain; a rule line's columns are the line's `split()` and start with a number |
| Listing.NumberedIsNoOtherKind | rfw_service/iptables.py:117-132 | a rule line is not blank, not a tracked `Chain` line and not a column header, the tests that come before it |
| Listing.Kinds | rfw_service/iptables.py:115-116 | every line of the listing is classified after stripping, one kind per line |
| Listing.Lines | rfw_service/iptables.py:115 | `out.split('\n')`: the pieces between newlines, empty ones kept |
| Listing.NextChain | rfw_service/iptables.py:117-123 | the chain update: a blank line resets it, a tracked `Chain` line sets it, every other line keeps it |
| Listing.ChainAfterAppend | rfw_service/iptables.py:113-123 | the chain context after two runs of lines is that of the second run started from the first's |
| Listing.ChainAfterKnown | rfw_service/iptables.py:113-122 | the chain context is always none or a tracked chain |
| Listing.RowsAtLines | rfw_service/iptables.py:130-141 | the rule lines are exactly the lines numbered, in increasing order, each row carrying its columns and the chain in effect there |
| Listing.ParseFollowsRows | rfw_service/iptables.py:130-141 | a successful parse builds one rule per rule line, from that line's values, in order |
| Listing.RuleOfRow | rfw_service/iptables.py:131-140 | the rule from a rule line holds its chain, its ten columns in order and the remaining columns as extra text, and that text splits back into those columns |
| Listing.RowValues | rfw_service/iptables.py:133-137 | the list handed to `Rule`: the chain, the first ten columns and the rest joined by single spaces; `Listing.RuleOfRow` states where each lands |
| Listing.RowValuesArity | rfw_service/iptables.py:133-140 | that list has twelve values, and `Rule(columns)` succeeds, exactly when the line has at least ten columns; otherwise it has the column count plus two |
| Listing.ParsedRules | rfw_service/iptables.py:106-142 | a successful parse returns exactly one rule per rule line of the listing, in line order, each with the chain in effect at its line, a numeric line number and its own columns |
| Listing.BlankLineEndsChain | rfw_service/iptables.py:117-119 | after a blank line no line is a rule line until a tracked `Chain` line |
| Listing.OutsideChainStaysOutside | rfw_service/iptables.py:113-130 | without a tracked `Chain` line, the parser stays outside any chain and finds no rules |
| Listing.BadHeaderFails | rfw_service/iptables.py:124-128 | a column header that is not `num pkts bytes target prot opt in out source destination` makes the whole parse fail |
| Listing.ParseFails | rfw_service/iptables.py:124-141 | the parse fails exactly when some line is a column header other than `IPTABLES_HEADERS` or a rule line inside a chain with fewer than ten columns; every other listing parses |
| Listing.FirstFailureDecides | rfw_service/iptables.py:124-141 | the first such line decides the error: `HeaderMismatch` with its columns, or `WrongArity` with the column count plus two |
| Listing.ParseFrom | rfw_service/iptables.py:115-141 | the loop body as a state machine over classified lines and the current chain: a bad header fails, a rule line prepends its rule or its error, every line moves the chain on; proved against the loop by `Listing.ParseListing` |
| Listing.Parse | rfw_service/iptables.py:106-142 | `_iptables_list` on a given listing: the lines of the text parsed from outside any chain; `Listing.ParsedRules` states what a successful parse returns |
| Listing.StepBlank | rfw_service/iptables.py:116-119 | a blank line resets the chain: the parse goes on outside any chain |
| Listing.StepChain | rfw_service/iptables.py:120-123 | a tracked `Chain` line makes that chain current and adds no rule |
| Listing.StepHeader | rfw_service/iptables.py:124-129 | a column header fails the parse unless its columns are the expected ones, and otherwise changes nothing |
| Listing.StepSkip | rfw_service/iptables.py:130-132 | any other line outside a chain, or whose first column is not a number, is skipped |
| Listing.StepRow | rfw_service/iptables.py:130-141 | a numbered line inside a chain adds the rule built from its values, or fails as building it fails |
| Listing.RowColumns | rfw_service/iptables.py:133-137 | the appended and inserted list is the chain, the first ten columns and the joined rest |
| Listing.ParseListing | rfw_service/iptables.py:106-142 | the loop over the listing's lines returns the parse of the listing |
| Commands.PortValueAfterTag | rfw_service/iptables.py:165-170 | a `dpt:`/`spt:` token yields the text after the tag, up to the next colon if any |
| Commands.NoSeparatorOnePiece | rfw_service/iptables.py:166 | text without the separator splits into itself alone |
| Commands.TaggedTokenArgs | rfw_service/iptables.py:165-172 | `dpt:N` gives `--dport N` and `spt:N` gives `--sport N` |
| Commands.PortValue | rfw_service/iptables.py:165-170 | `e.split(':')[1]` for a `dpt:`/`spt:` token; `Commands.PortValueAfterTag` proves it is the text after the tag up to the next colon |
| Commands.TokenArgs | rfw_service/iptables.py:164-172 | the switches one extra token appends: `--dport` for `dpt:`, then `--sport` for `spt:` |
| Commands.PortArgs | rfw_service/iptables.py:162-172 | the switches of the extra tokens, token by token in order; `Commands.AppendPortArgs` proves the loop appends exactly these and `Commands.PortArgsDecode` reads the ports back |
| Commands.SwitchList | rfw_service/iptables.py:157-181 | the switches after the chain in the order they are appended: protocol, ports, destination, source, target; `Commands.SwitchesDecode` reads them back |
| Commands.Command | rfw_service/iptables.py:146-182 | `rule_to_command`: the chain, then the protocol, port, address and target switches, or the refusal for a chain outside INPUT, OUTPUT, FORWARD or a missing target; `Commands.CommandDefined` and `Commands.CommandDecodes` state what it means |
| Commands.AppendPortArgs | rfw_service/iptables.py:162-172 | the loop over the extra tokens appends exactly the port switches of the tokens, in order |
| Commands.RuleToCommand | rfw_service/iptables.py:146-182 | the appended argument list is the command of the rule, or the rule's refusal |
| Commands.PortArgsDecode | rfw_service/iptables.py:162-172 | the port switches are switch/value pairs; `--dport` carries the destination ports and `--sport` the source ports, in token order |
| Commands.SwitchesDecode | rfw_service/iptables.py:157-181 | the switches after the chain carry the protocol unless `all`, the ports, the addresses unless `0.0.0.0/0`, and the target |
| Commands.CommandDecodes | rfw_service/iptables.py:146-182 | a command starts with the rule's chain, and reading its switch/value pairs back gives each switch exactly the rule's values |
| Commands.CommandDefined | rfw_service/iptables.py:154-181 | a command exists exactly for a rule in INPUT, OUTPUT or FORWARD that has a target |
| Commands.CommandRefusal | rfw_service/iptables.py:154 | a rule outside the built-in chains is refused for its chain, otherwise for its missing target |
| Commands.CommandEndsWithTarget | rfw_service/iptables.py:180-181 | every command ends with `-j` and the rule's target |
| Commands.CommandDependsOnlyOn | rfw_service/iptables.py:146-182 | the command depends only on chain, protocol, port tokens, addresses and target |
| Commands.EqualRulesSameCommand | rfw_service/iptables.py:146-182 | rules that compare equal and have the same extra text give the same command |
| Commands.CommandDropsInterfaces | rfw_service/iptables.py:146-182 | the interfaces never reach the command |
| Commands.CommandExample | rfw_service/iptables.py:147-151 | the documented sample rule, with extra text `tcp dpt:7373 spt:34543`, gives `INPUT -p tcp --dport 7373 --sport 34543 -s 1.2.3.4 -j ACCEPT`, with no `-d` for `0.0.0.0/0` |
| Commands.CommandExampleAnyAddress | rfw_service/iptables.py:162-181 | the same rule with both addresses `0.0.0.0/0` gives exactly `INPUT -p tcp --dport 7373 --sport 34543 -j ACCEPT`: neither `-s` nor `-d` |
| Commands.ExampleCommand | rfw_service/iptables.py:155-181 | for extra text splitting into `tcp dpt:7373 spt:34543`, the command carries `-s` and the source address exactly when that address is not `0.0.0.0/0` |
| Commands.ExampleTokens | rfw_service/iptables.py:151-163 | the sample extra text splits into `tcp`, `dpt:7373`, `spt:34543` |
| Commands.ExampleTokenArgs | rfw_service/iptables.py:162-172 | those tokens give `--dport 7373 --sport 34543` |
| Commands.ExeRuleArgs | rfw_service/iptables.py:186-189 | a failure for a modifier other than I or D is the unsupported-modifier error |
| Commands.ExeRuleWraps | rfw_service/iptables.py:186-189 | with I or D, the arguments are `-I`/`-D` followed by the rule's command, and fail exactly when the command does, with its error |
| Commands.ExeRuleRejects | rfw_service/iptables.py:187 | any modifier other than I and D is refused whatever the rule |
| Commands.InsertDeleteAgree | rfw_service/iptables.py:186-189 | the insert and delete arguments for a rule differ only in their first switch |
| Query.Select | rfw_service/iptables.py:209-226 | the answer is no longer than the rules and every rule in it matches the query |
| Query.Matches | rfw_service/iptables.py:218-223 | a rule matches a query when, for every queried field, the rule's value is among the allowed values; `Query.SelectMembers` proves the answer keeps exactly the matching rules |
| Query.SelectAppend | rfw_service/iptables.py:216-226 | answering a query over two runs of rules is answering it over each, in order |
| Query.SelectOne | rfw_service/iptables.py:217-225 | a single rule is kept exactly when it matches |
| Query.MatchingPositionsExact | rfw_service/iptables.py:217-225 | the kept positions are in range, increase, and are exactly the positions of matching rules |
| Query.SelectIsOrderedSubsequence | rfw_service/iptables.py:216-226 | the k-th rule of the answer is the rule at the k-th matching position |
| Query.SelectMembers | rfw_service/iptables.py:216-226 | a rule is in the answer exactly when it is among the rules and matches |
| Query.SelectCounts | rfw_service/iptables.py:216-226 | each matching rule occurs in the answer as often as among the rules, and a non-matching one never does |
| Query.SelectEmptyQuery | rfw_service/iptables.py:218-225 | the empty query returns every rule |
| Query.SelectKeepsAll | rfw_service/iptables.py:216-226 | the answer is all the rules exactly when every rule matches |
| Query.SelectIdempotent | rfw_service/iptables.py:216-226 | asking the same query of its own answer changes nothing |
| Query.SelectBoth | rfw_service/iptables.py:219-223 | queries on different fields combine by conjunction |
| Firewall.Iptables.constructor | rfw_service/iptables.py:64-68 | the instance holds the given rules |
| Firewall.Iptables.Load | rfw_service/iptables.py:73-76 | a fresh instance holds the parse of the listing, or the parse's error is returned |
| Firewall.Iptables.Find | rfw_service/iptables.py:209-226 | the nested loops return exactly the selection of the instance's rules by the query |

## Left out

- `Iptables.exe` and the `RLock` around it are not modelled. The listing that `load` obtains by running `iptables` is a parameter of `Load` and `ParseListing`. `exe_rule` is modelled up to the argument list it would execute (`ExeRuleArgs`), not the execution.
- `verify_install`, `verify_permission` and `verify_original` are not modelled; they only run the external tool.
- The constructor's caller check through `inspect.stack()` is not modelled. Any caller may construct an `Iptables`, and `rules` is a `const` field, so it cannot change afterwards.
- Logging, the module's `__main__` block and `setup.py` are not part of this model.
- `Rule(**kwargs)`, `Rule()` with no argument, and more than one positional argument are not modelled. Neither is a positional argument that is neither a list nor a dictionary. Only list and dictionary construction are.
- Rules.FromList: takes text values only. A list holding `None` or other objects is not modelled; the parser only ever passes text.
- Rules.FromFields: takes text values only. Non-text dictionary values are not modelled.
- Commands.Command, Commands.RuleToCommand: a rule in a built-in chain whose target is `None` is modelled as the refusal `MissingTarget`. `rule_to_command` instead returns a list ending in `None`, which fails later when the command is executed.
- The three `assert` checks vanish when Python runs with `-O`. The model always performs them.
- Whitespace and digits are ASCII only, as in Python 2's byte strings. `\w` in the chain pattern is ASCII letters, digits and `_`, as without a locale or Unicode flag.
- Query values that are strings rather than lists, where `in` tests substrings, are not modelled. Attribute names that are not rule attributes (an `AttributeError`) are not modelled either: queries are maps from `Field` to lists of values.
- Firewall.Iptables.Find: the order in which `find` visits the queried fields is Python's dictionary order. The model visits them in an arbitrary order, and the result is proved the same whatever the order.
- The parse → rebuild round trip is lossy by design: extra tokens other than `dpt:`/`spt:` are dropped (`CommandDependsOnlyOn`), as are the interfaces (`CommandDropsInterfaces`) and the options.
