/**
 * Parsing the text printed by `iptables -n -L -v -x --line-numbers`.
 * Each stripped line is first classified (`Classify`); the parse proper is a
 * state machine over the classified lines whose state is the current chain
 * (`ParseFrom`); `ParseListing` is the line-by-line loop that computes it.
 */
module Listing {
  import opened Wrappers
  import opened PyText
  import opened Rules

  /** The column header the listing must print. */
  const Headers: seq<string> := ["num", "pkts", "bytes", "target", "prot", "opt", "in", "out", "source", "destination"]

  /** A chain context the parser can be in: none, or one of the tracked chains. */
  predicate KnownChain(chain: Option<string>)
  {
    chain.None? || chain.value in Chains
  }

  /** The tracked chain a `Chain NAME ...` line opens, if it opens one. */
  function ChainOf(line: string): (name: Option<string>)
    ensures name.Some? ==> name.value in Chains
  {
    if StartsWith(line, "Chain INPUT ") then Some("INPUT")
    else if StartsWith(line, "Chain OUTPUT ") then Some("OUTPUT")
    else if StartsWith(line, "Chain FORWARD ") then Some("FORWARD")
    else None
  }

  /** `ChainOf` names a tracked chain exactly when the line starts with `Chain NAME `. */
  lemma ChainOfOpens(line: string, c: string)
    requires c in Chains
    ensures ChainOf(line) == Some(c) <==> StartsWith(line, "Chain " + c + " ")
  {
    var p := "Chain " + c + " ";
    if StartsWith(line, p) && c != "INPUT" {
      assert !StartsWith(line, "Chain INPUT ") by { assert line[6] == p[6]; }
      if c == "FORWARD" {
        assert !StartsWith(line, "Chain OUTPUT ") by { assert line[6] == p[6]; }
      }
    }
  }

  /** A character of the regular-expression class `\w` (no locale, no Unicode flag). */
  predicate IsWordChar(c: char)
  {
    ('a' <= c <= 'z') || ('A' <= c <= 'Z') || ('0' <= c <= '9') || c == '_'
  }

  /** The longest prefix of `s` made of `\w` characters. */
  function WordRun(s: string): (w: string)
    ensures |w| <= |s| && w == s[..|w|]
    ensures forall i :: 0 <= i < |w| ==> IsWordChar(w[i])
    ensures |w| == |s| || !IsWordChar(s[|w|])
  {
    if s == [] || !IsWordChar(s[0]) then []
    else
      assert s == [s[0]] + s[1..];
      [s[0]] + WordRun(s[1..])
  }

  /** What `re.match(r"Chain (\w+) .*", line)` captures as group 1, if it matches. */
  function ChainPattern(line: string): Option<string>
  {
    if !StartsWith(line, "Chain ") then None
    else
      var w := WordRun(line[6..]);
      if w != [] && 6 + |w| < |line| && line[6 + |w|] == ' ' then Some(w) else None
  }

  /** `ChainOf` is the regular-expression match followed by the membership test. */
  lemma ChainOfIsPatternMatch(line: string)
    ensures ChainOf(line) == (var m := ChainPattern(line); if m.Some? && m.value in Chains then m else None)
  {
    forall c | c in Chains
      ensures ChainOf(line) == Some(c) <==> (ChainPattern(line).Some? && ChainPattern(line).value == c)
    {
      PatternNamesChain(line, c);
      ChainOfOpens(line, c);
    }
  }

  /** The pattern captures a tracked chain's name exactly when the line starts with `Chain NAME `. */
  lemma PatternNamesChain(line: string, c: string)
    requires c in Chains
    ensures StartsWith(line, "Chain " + c + " ") <==> (ChainPattern(line).Some? && ChainPattern(line).value == c)
  {
    if StartsWith(line, "Chain " + c + " ") {
      PatternOfPrefix(line, c);
    }
    if ChainPattern(line).Some? && ChainPattern(line).value == c {
      PrefixOfPattern(line, c);
    }
  }

  /** The tracked chain names are made of word characters. */
  lemma ChainsAreWords(c: string)
    requires c in Chains
    ensures c != [] && forall i :: 0 <= i < |c| ==> IsWordChar(c[i])
  {
  }

  /** A line starting with `Chain NAME ` for a tracked chain captures that name. */
  lemma PatternOfPrefix(line: string, c: string)
    requires c in Chains && StartsWith(line, "Chain " + c + " ")
    ensures ChainPattern(line) == Some(c)
  {
    ChainsAreWords(c);
    var p := "Chain " + c + " ";
    var rest := line[6..];
    assert line[..|p|] == p;
    assert StartsWith(line, "Chain ") by { assert line[..6] == p[..6]; }
    assert rest[..|c|] == c by { assert rest[..|c|] == p[6..6 + |c|]; }
    assert rest[|c|] == ' ' by { assert rest[|c|] == p[6 + |c|]; }
    WordRunOfPrefix(rest, c);
  }

  /** A line whose captured name is `c` starts with `Chain `, `c` and a space. */
  lemma PrefixOfPattern(line: string, c: string)
    requires ChainPattern(line) == Some(c)
    ensures StartsWith(line, "Chain " + c + " ")
  {
    var rest := line[6..];
    assert WordRun(rest) == c;
    assert line[..6] == "Chain " && rest[..|c|] == c && line[6 + |c|] == ' ';
    assert line[..6 + |c| + 1] == line[..6] + rest[..|c|] + [line[6 + |c|]];
  }

  /** A run of word characters followed by a non-word character is what `WordRun` reads. */
  lemma {:induction false} WordRunOfPrefix(s: string, c: string)
    requires |c| < |s| && s[..|c|] == c && !IsWordChar(s[|c|])
    requires forall i :: 0 <= i < |c| ==> IsWordChar(c[i])
    ensures WordRun(s) == c
  {
    if c != [] {
      WordRunOfPrefix(s[1..], c[1..]);
    }
  }

  /** The substring test `_iptables_list` uses to spot the column header. */
  predicate IsColumnHeader(line: string)
  {
    Contains(line, "source") && Contains(line, "destination")
  }

  /** The columns of a rule line: the first one is a line number. */
  predicate IsRuleRow(columns: seq<string>)
  {
    |columns| > 0 && IsDigits(columns[0])
  }

  /** What a stripped line of the listing is, tested in the order `_iptables_list` tests it. */
  datatype LineKind =
    | Blank                              // resets the chain context
    | ChainStart(name: string)           // `Chain NAME ...` for a tracked chain
    | ColumnHeader(columns: seq<string>) // mentions both "source" and "destination"
    | Numbered(columns: seq<string>)     // first column is a line number
    | Other

  function Classify(line: string): (kind: LineKind)
    ensures kind.ChainStart? ==> kind.name in Chains
    ensures kind.Numbered? ==> IsRuleRow(kind.columns) && kind.columns == Tokens(line)
  {
    if line == "" then Blank
    else if ChainOf(line).Some? then ChainStart(ChainOf(line).value)
    else if IsColumnHeader(line) then ColumnHeader(Tokens(line))
    else if IsRuleRow(Tokens(line)) then Numbered(Tokens(line))
    else Other
  }

  /** A rule line is none of the kinds of line tested before it. */
  lemma NumberedIsNoOtherKind(line: string)
    requires Classify(line).Numbered?
    ensures line != "" && ChainOf(line).None? && !IsColumnHeader(line)
  {
  }

  /** A column header whose columns are not the expected ones: the parse fails on it. */
  predicate BadHeader(kind: LineKind)
  {
    kind.ColumnHeader? && kind.columns != Headers
  }

  /** The chain context after one line. */
  function NextChain(chain: Option<string>, kind: LineKind): Option<string>
  {
    match kind
    case Blank => None
    case ChainStart(name) => Some(name)
    case _ => chain
  }

  /** A rule line together with the chain it was listed under. */
  datatype Row = Row(chain: string, columns: seq<string>)

  /** The rule line, if any, that one line contributes in the given context. */
  function RowOf(chain: Option<string>, kind: LineKind): seq<Row>
  {
    if kind.Numbered? && chain.Some? then [Row(chain.value, kind.columns)] else []
  }

  /** The columns past the tenth, which make up the extra text. */
  function ExtraColumns(columns: seq<string>): seq<string>
  {
    if |columns| <= 10 then [] else columns[10..]
  }

  /** The values a rule line is built from: chain, the first ten columns, the extra text. */
  function RowValues(row: Row): seq<string>
  {
    var first := if |row.columns| <= 10 then row.columns else row.columns[..10];
    [row.chain] + first + [JoinWith(ExtraColumns(row.columns), " ")]
  }

  lemma RowValuesShape(row: Row, values: seq<string>)
    requires values == [row.chain] + ((if |row.columns| <= 10 then row.columns else row.columns[..10])
      + [JoinWith(if |row.columns| <= 10 then [] else row.columns[10..], " ")])
    ensures values == RowValues(row)
  {
  }

  /** The classified lines of a listing. */
  function Kinds(lines: seq<string>): seq<LineKind>
  {
    seq(|lines|, i requires 0 <= i < |lines| => Classify(Strip(lines[i])))
  }

  /** One kind per line: the kind of line `i` is that of the stripped line. */
  lemma KindsAt(lines: seq<string>, i: nat)
    requires i < |lines|
    ensures |Kinds(lines)| == |lines| && Kinds(lines)[i] == Classify(Strip(lines[i]))
  {
  }

  /** The rule lines among the classified lines, in order, with the chain each one is listed under. */
  function Rows(kinds: seq<LineKind>, chain: Option<string>): seq<Row>
  {
    if kinds == [] then []
    else RowOf(chain, kinds[0]) + Rows(kinds[1..], NextChain(chain, kinds[0]))
  }

  /** The chain context after a run of lines. */
  function ChainAfter(kinds: seq<LineKind>, chain: Option<string>): Option<string>
  {
    if kinds == [] then chain
    else ChainAfter(kinds[1..], NextChain(chain, kinds[0]))
  }

  /** Rules already produced, in front of whatever the rest of the parse gives. */
  function Prepend(rules: seq<Rule>, rest: Result<seq<Rule>, Error>): Result<seq<Rule>, Error>
  {
    match rest
    case Ok(more) => Ok(rules + more)
    case Err(e) => Err(e)
  }

  /** The parse of the remaining lines from the given chain context; the first failure wins. */
  function ParseFrom(kinds: seq<LineKind>, chain: Option<string>): Result<seq<Rule>, Error>
  {
    if kinds == [] then Ok([])
    else if BadHeader(kinds[0]) then Err(HeaderMismatch(kinds[0].columns))
    else
      var rest := ParseFrom(kinds[1..], NextChain(chain, kinds[0]));
      var rows := RowOf(chain, kinds[0]);
      if rows == [] then rest
      else
        match FromList(RowValues(rows[0]))
        case Err(e) => Err(e)
        case Ok(r) => Prepend([r], rest)
  }

  /** The lines of a listing: `output.split('\n')`. */
  function Lines(output: string): seq<string>
  {
    SplitOn(output, '\n')
  }

  /** The parse of a whole listing: its lines, starting outside any chain. */
  function Parse(output: string): Result<seq<Rule>, Error>
  {
    ParseFrom(Kinds(Lines(output)), None)
  }

  /** Line `i` is a rule line in the chain context its predecessors leave. */
  predicate IsRuleLineAt(kinds: seq<LineKind>, chain: Option<string>, i: nat)
    requires i < |kinds|
  {
    RowOf(ChainAfter(kinds[..i], chain), kinds[i]) != []
  }

  /** Adds one to every index. */
  function Shift(idx: seq<nat>): (r: seq<nat>)
    ensures |r| == |idx| && forall k :: 0 <= k < |idx| ==> r[k] == idx[k] + 1
  {
    seq(|idx|, k requires 0 <= k < |idx| => idx[k] + 1)
  }

  /** The indices of the rule lines, in the order the parser meets them. */
  function RowLines(kinds: seq<LineKind>, chain: Option<string>): seq<nat>
  {
    if kinds == [] then []
    else (if RowOf(chain, kinds[0]) == [] then [] else [0]) + Shift(RowLines(kinds[1..], NextChain(chain, kinds[0])))
  }

  lemma ChainAfterCons(kinds: seq<LineKind>, chain: Option<string>, i: nat)
    requires 0 < i <= |kinds|
    ensures ChainAfter(kinds[..i], chain) == ChainAfter(kinds[1..][..i - 1], NextChain(chain, kinds[0]))
  {
    assert kinds[..i][1..] == kinds[1..][..i - 1];
  }

  /** The chain context after two runs of lines is that of the second run, started from the first's. */
  lemma {:induction false} ChainAfterAppend(a: seq<LineKind>, b: seq<LineKind>, chain: Option<string>)
    ensures ChainAfter(a + b, chain) == ChainAfter(b, ChainAfter(a, chain))
  {
    if a == [] {
      assert a + b == b;
    } else {
      assert (a + b)[1..] == a[1..] + b;
      ChainAfterAppend(a[1..], b, NextChain(chain, a[0]));
    }
  }

  /** Every chain context the parser can reach is none or a tracked chain. */
  lemma {:induction false} ChainAfterKnown(kinds: seq<LineKind>, chain: Option<string>)
    requires KnownChain(chain)
    requires forall m :: 0 <= m < |kinds| && kinds[m].ChainStart? ==> kinds[m].name in Chains
    ensures KnownChain(ChainAfter(kinds, chain))
  {
    if kinds != [] {
      ChainAfterKnown(kinds[1..], NextChain(chain, kinds[0]));
    }
  }

  /** Row `row` is the rule line `i`, listed under the chain in effect there. */
  predicate RowListedAt(kinds: seq<LineKind>, chain: Option<string>, row: Row, i: nat)
  {
    && i < |kinds| && kinds[i].Numbered?
    && ChainAfter(kinds[..i], chain).Some?
    && row == Row(ChainAfter(kinds[..i], chain).value, kinds[i].columns)
  }

  lemma RowListedAtCons(kinds: seq<LineKind>, chain: Option<string>, row: Row, i: nat)
    requires kinds != [] && RowListedAt(kinds[1..], NextChain(chain, kinds[0]), row, i)
    ensures RowListedAt(kinds, chain, row, i + 1)
  {
    ChainAfterCons(kinds, chain, i + 1);
  }

  /**
   * The rule lines among `kinds` are exactly the lines `RowLines` names, in
   * increasing order, and the row for each holds its columns and the chain in
   * effect at that line.
   */
  predicate RowsIndexed(kinds: seq<LineKind>, chain: Option<string>)
  {
    var rows, idx := Rows(kinds, chain), RowLines(kinds, chain);
    && |idx| == |rows|
    && (forall k :: 0 <= k < |idx| ==> RowListedAt(kinds, chain, rows[k], idx[k]))
    && (forall a, b :: 0 <= a < b < |idx| ==> idx[a] < idx[b])
    && (forall i: nat :: i < |kinds| && IsRuleLineAt(kinds, chain, i) ==> i in idx)
  }

  lemma {:induction false} RowsAtLines(kinds: seq<LineKind>, chain: Option<string>)
    ensures RowsIndexed(kinds, chain)
  {
    if kinds != [] {
      RowsAtLines(kinds[1..], NextChain(chain, kinds[0]));
      RowsListedStep(kinds, chain);
      RowsOrderedStep(kinds, chain);
      RowsCompleteStep(kinds, chain);
    }
  }

  lemma RowsListedStep(kinds: seq<LineKind>, chain: Option<string>)
    requires kinds != [] && RowsIndexed(kinds[1..], NextChain(chain, kinds[0]))
    ensures |RowLines(kinds, chain)| == |Rows(kinds, chain)|
    ensures forall k :: 0 <= k < |RowLines(kinds, chain)| ==>
      RowListedAt(kinds, chain, Rows(kinds, chain)[k], RowLines(kinds, chain)[k])
  {
    var next := NextChain(chain, kinds[0]);
    var rows', idx' := Rows(kinds[1..], next), RowLines(kinds[1..], next);
    var headRows := RowOf(chain, kinds[0]);
    var head: seq<nat> := if headRows == [] then [] else [0];
    assert RowLines(kinds, chain) == head + Shift(idx');
    assert Rows(kinds, chain) == headRows + rows';
    if headRows != [] {
      assert kinds[..0] == [];
    }
    ListedAfterHead(kinds, chain, headRows, head, rows', idx');
  }

  /** The rows of the rest of the lines, each one line further on, behind the row of the first line if any. */
  lemma ListedAfterHead(kinds: seq<LineKind>, chain: Option<string>, headRows: seq<Row>, head: seq<nat>,
                        rows': seq<Row>, idx': seq<nat>)
    requires kinds != [] && |head| == |headRows| <= 1
    requires |head| == 1 ==> head[0] == 0 && RowListedAt(kinds, chain, headRows[0], 0)
    requires |idx'| == |rows'|
    requires forall k :: 0 <= k < |idx'| ==> RowListedAt(kinds[1..], NextChain(chain, kinds[0]), rows'[k], idx'[k])
    ensures forall k :: 0 <= k < |head| + |idx'| ==>
      RowListedAt(kinds, chain, (headRows + rows')[k], (head + Shift(idx'))[k])
  {
    forall k | 0 <= k < |head| + |idx'|
      ensures RowListedAt(kinds, chain, (headRows + rows')[k], (head + Shift(idx'))[k])
    {
      if k >= |head| {
        RowListedAtCons(kinds, chain, rows'[k - |head|], idx'[k - |head|]);
        assert (headRows + rows')[k] == rows'[k - |head|];
        assert (head + Shift(idx'))[k] == idx'[k - |head|] + 1;
      }
    }
  }

  lemma RowsOrderedStep(kinds: seq<LineKind>, chain: Option<string>)
    requires kinds != [] && RowsIndexed(kinds[1..], NextChain(chain, kinds[0]))
    ensures forall a, b :: 0 <= a < b < |RowLines(kinds, chain)| ==> RowLines(kinds, chain)[a] < RowLines(kinds, chain)[b]
  {
    var idx' := RowLines(kinds[1..], NextChain(chain, kinds[0]));
    var head: seq<nat> := if RowOf(chain, kinds[0]) == [] then [] else [0];
    assert RowLines(kinds, chain) == head + Shift(idx');
  }

  /** An index of the rest of the lines is, shifted by one, an index of all of them. */
  lemma ShiftedIn(head: seq<nat>, idx: seq<nat>, j: nat)
    requires j in idx
    ensures j + 1 in head + Shift(idx)
  {
    var k :| 0 <= k < |idx| && idx[k] == j;
    assert (head + Shift(idx))[|head| + k] == j + 1;
  }

  lemma RowsCompleteStep(kinds: seq<LineKind>, chain: Option<string>)
    requires kinds != [] && RowsIndexed(kinds[1..], NextChain(chain, kinds[0]))
    ensures forall i: nat :: i < |kinds| && IsRuleLineAt(kinds, chain, i) ==> i in RowLines(kinds, chain)
  {
    var next := NextChain(chain, kinds[0]);
    var tail := kinds[1..];
    var idx' := RowLines(tail, next);
    var idx := RowLines(kinds, chain);
    var head: seq<nat> := if RowOf(chain, kinds[0]) == [] then [] else [0];
    assert idx == head + Shift(idx');
    forall i: nat | i < |kinds| && IsRuleLineAt(kinds, chain, i) ensures i in idx {
      if i == 0 {
        assert kinds[..0] == [];
        assert (head + Shift(idx'))[0] == 0;
      } else {
        ChainAfterCons(kinds, chain, i);
        assert IsRuleLineAt(tail, next, i - 1);
        ShiftedIn(head, idx', i - 1);
      }
    }
  }

  /** Each parsed rule is the rule built from the row at the same position. */
  predicate BuiltFromRows(rs: seq<Rule>, rows: seq<Row>)
  {
    if rows == [] then rs == []
    else rs != [] && BuiltFrom(rs[0], rows[0]) && BuiltFromRows(rs[1..], rows[1..])
  }

  /** `r` is the rule built from the values of `row`. */
  predicate BuiltFrom(r: Rule, row: Row)
  {
    FromList(RowValues(row)) == Ok(r)
  }

  lemma BuiltFromRowsCons(r: Rule, rs: seq<Rule>, row: Row, rows: seq<Row>)
    requires BuiltFrom(r, row) && BuiltFromRows(rs, rows)
    ensures BuiltFromRows([r] + rs, [row] + rows)
  {
    ConsTail(r, rs);
    ConsTail(row, rows);
  }

  /** Rules built row by row: as many rules as rows, the k-th built from the k-th row. */
  lemma {:induction false} BuiltFromRowsAt(rs: seq<Rule>, rows: seq<Row>, k: nat)
    requires BuiltFromRows(rs, rows) && k < |rows|
    ensures |rs| == |rows| && BuiltFrom(rs[k], rows[k])
  {
    if k > 0 {
      BuiltFromRowsAt(rs[1..], rows[1..], k - 1);
    } else {
      BuiltFromRowsLength(rs, rows);
    }
  }

  lemma {:induction false} BuiltFromRowsLength(rs: seq<Rule>, rows: seq<Row>)
    requires BuiltFromRows(rs, rows)
    ensures |rs| == |rows|
  {
    if rows != [] {
      BuiltFromRowsLength(rs[1..], rows[1..]);
    }
  }

  /** A successful parse yields one rule per rule line, built from that line's row. */
  lemma {:induction false} ParseFollowsRows(kinds: seq<LineKind>, chain: Option<string>)
    requires ParseFrom(kinds, chain).Ok?
    ensures BuiltFromRows(ParseFrom(kinds, chain).value, Rows(kinds, chain))
  {
    if kinds != [] {
      var next := NextChain(chain, kinds[0]);
      assert ParseFrom(kinds[1..], next).Ok?;
      ParseFollowsRows(kinds[1..], next);
      ParseFollowsRowsStep(kinds, chain);
    }
  }

  lemma ParseFollowsRowsStep(kinds: seq<LineKind>, chain: Option<string>)
    requires kinds != [] && ParseFrom(kinds, chain).Ok?
    requires ParseFrom(kinds[1..], NextChain(chain, kinds[0])).Ok?
    requires BuiltFromRows(ParseFrom(kinds[1..], NextChain(chain, kinds[0])).value, Rows(kinds[1..], NextChain(chain, kinds[0])))
    ensures BuiltFromRows(ParseFrom(kinds, chain).value, Rows(kinds, chain))
  {
    var next := NextChain(chain, kinds[0]);
    var rest := ParseFrom(kinds[1..], next).value;
    var rows' := Rows(kinds[1..], next);
    var rs, rows := ParseFrom(kinds, chain).value, Rows(kinds, chain);
    var here := RowOf(chain, kinds[0]);
    assert rows == here + rows';
    if here == [] {
      assert rs == rest && rows == rows';
    } else {
      var r := FromList(RowValues(here[0])).value;
      assert rs == [r] + rest && rows == [here[0]] + rows';
      BuiltFromRowsCons(r, rest, here[0], rows');
    }
  }

  /** The rule built from a row holds the chain, the first ten columns and the joined rest. */
  lemma RuleOfRow(row: Row, r: Rule)
    requires FromList(RowValues(row)) == Ok(r)
    requires AllWords(row.columns)
    ensures |row.columns| >= 10
    ensures r.chain == Some(row.chain)
    ensures r.num == Some(row.columns[0]) && r.pkts == Some(row.columns[1]) && r.bytes == Some(row.columns[2])
    ensures r.target == Some(row.columns[3]) && r.prot == row.columns[4] && r.opt == row.columns[5]
    ensures r.inp == row.columns[6] && r.out == row.columns[7]
    ensures r.source == row.columns[8] && r.destination == row.columns[9]
    ensures r.extra == JoinWith(row.columns[10..], " ") && Tokens(r.extra) == row.columns[10..]
  {
    var v := RowValues(row);
    var cols := row.columns;
    assert |v| == 12;
    assert v[1..11] == cols[..10];
    assert v[11] == JoinWith(cols[10..], " ");
    FromListPositions(v);
    TokensOfJoin(cols[10..]);
  }

  /**
   * What a successful parse promises about a rule it returns from line `i`: the
   * line is neither blank, nor a `Chain` line, nor a column header; the rule has a
   * tracked chain (the one in effect at that line), a numeric line number, the
   * first ten columns in order and the remaining columns joined by single
   * spaces as its extra text.
   */
  predicate ListedAs(r: Rule, lines: seq<string>, i: nat)
    requires i < |lines|
  {
    var line := Strip(lines[i]);
    var cols := Tokens(line);
    && line != "" && ChainOf(line).None? && !IsColumnHeader(line)
    && |cols| >= 10 && IsDigits(cols[0])
    && r.chain.Some? && r.chain.value in Chains && r.chain == ChainAfter(Kinds(lines)[..i], None)
    && r.num == Some(cols[0]) && r.pkts == Some(cols[1]) && r.bytes == Some(cols[2])
    && r.target == Some(cols[3]) && r.prot == cols[4] && r.opt == cols[5]
    && r.inp == cols[6] && r.out == cols[7] && r.source == cols[8] && r.destination == cols[9]
    && r.extra == JoinWith(cols[10..], " ") && Tokens(r.extra) == cols[10..]
  }

  /**
   * A successful parse of a listing returns exactly one rule per rule line, in
   * the order of the lines, each built from its own line.
   */
  lemma ParsedRules(output: string)
    requires Parse(output).Ok?
    ensures var rs, lines := Parse(output).value, Lines(output);
      var idx := RowLines(Kinds(lines), None);
      && |rs| == |idx|
      && (forall k :: 0 <= k < |rs| ==> idx[k] < |lines| && ListedAs(rs[k], lines, idx[k]))
      && (forall a, b :: 0 <= a < b < |idx| ==> idx[a] < idx[b])
      && (forall i: nat :: i < |lines| && IsRuleLineAt(Kinds(lines), None, i) ==> i in idx)
  {
    var lines := Lines(output);
    var kinds := Kinds(lines);
    var rs, rows, idx := Parse(output).value, Rows(kinds, None), RowLines(kinds, None);
    RowsAtLines(kinds, None);
    ParseFollowsRows(kinds, None);
    BuiltFromRowsLength(rs, rows);
    assert RowsIndexed(kinds, None);
    forall k | 0 <= k < |rs| ensures idx[k] < |lines| && ListedAs(rs[k], lines, idx[k]) {
      var i := idx[k];
      BuiltFromRowsAt(rs, rows, k);
      assert RowListedAt(kinds, None, rows[k], i);
      KindsAt(lines, i);
      NumberedIsNoOtherKind(Strip(lines[i]));
      assert forall m :: 0 <= m < i && kinds[..i][m].ChainStart? ==> kinds[..i][m].name in Chains by {
        forall m | 0 <= m < i ensures kinds[..i][m] == Classify(Strip(lines[m])) {
          KindsAt(lines, m);
        }
      }
      ChainAfterKnown(kinds[..i], None);
      TokensAreWords(Strip(lines[i]));
      RuleOfRow(rows[k], rs[k]);
    }
  }

  /** A blank line ends the chain: no later line is a rule line until a tracked `Chain` line. */
  lemma BlankLineEndsChain(kinds: seq<LineKind>, chain: Option<string>, j: nat, i: nat)
    requires j < i < |kinds|
    requires kinds[j] == Blank
    requires forall m :: j < m < i ==> !kinds[m].ChainStart?
    ensures ChainAfter(kinds[..i], chain) == None
    ensures !IsRuleLineAt(kinds, chain, i)
  {
    assert kinds[..i] == kinds[..j] + [kinds[j]] + kinds[j + 1..i];
    ChainAfterAppend(kinds[..j] + [kinds[j]], kinds[j + 1..i], chain);
    ChainAfterAppend(kinds[..j], [kinds[j]], chain);
    assert ChainAfter([kinds[j]], ChainAfter(kinds[..j], chain)) == None;
    OutsideChainStaysOutside(kinds[j + 1..i]);
  }

  /** Lines without a tracked `Chain` line keep a parser that is outside any chain outside it. */
  lemma {:induction false} OutsideChainStaysOutside(kinds: seq<LineKind>)
    requires forall m :: 0 <= m < |kinds| ==> !kinds[m].ChainStart?
    ensures ChainAfter(kinds, None) == None
    ensures Rows(kinds, None) == []
  {
    if kinds != [] {
      OutsideChainStaysOutside(kinds[1..]);
    }
  }

  /** A malformed column header makes the whole parse fail, whatever precedes it. */
  lemma {:induction false} BadHeaderFails(kinds: seq<LineKind>, chain: Option<string>, i: nat)
    requires i < |kinds| && BadHeader(kinds[i])
    ensures ParseFrom(kinds, chain).Err?
  {
    if i > 0 && !BadHeader(kinds[0]) {
      BadHeaderFails(kinds[1..], NextChain(chain, kinds[0]), i - 1);
    }
  }

  /** The values of a rule line number twelve exactly when the line has at least ten columns. */
  lemma RowValuesArity(row: Row)
    ensures |RowValues(row)| == (if |row.columns| <= 10 then |row.columns| + 2 else 12)
    ensures FromList(RowValues(row)).Ok? <==> |row.columns| >= 10
  {
  }

  /** Line `i` stops the parse: a malformed column header, or a rule line with fewer than ten columns. */
  predicate FailsAt(kinds: seq<LineKind>, chain: Option<string>, i: nat)
    requires i < |kinds|
  {
    BadHeader(kinds[i]) || (IsRuleLineAt(kinds, chain, i) && |kinds[i].columns| < 10)
  }

  /** The error line `i` stops the parse with. */
  function FailureAt(kinds: seq<LineKind>, chain: Option<string>, i: nat): Error
    requires i < |kinds| && FailsAt(kinds, chain, i)
  {
    if BadHeader(kinds[i]) then HeaderMismatch(kinds[i].columns) else WrongArity(|kinds[i].columns| + 2)
  }

  /** Whether a later line stops the parse does not depend on the lines before it beyond the chain they leave. */
  lemma FailsAtCons(kinds: seq<LineKind>, chain: Option<string>, i: nat)
    requires 0 < i < |kinds|
    ensures FailsAt(kinds, chain, i) == FailsAt(kinds[1..], NextChain(chain, kinds[0]), i - 1)
    ensures FailsAt(kinds, chain, i) ==>
      FailureAt(kinds, chain, i) == FailureAt(kinds[1..], NextChain(chain, kinds[0]), i - 1)
  {
    ChainAfterCons(kinds, chain, i);
    assert kinds[1..][i - 1] == kinds[i];
  }

  /**
   * The parse fails exactly when some line stops it: a column header other than the expected one,
   * or a rule line inside a chain with fewer than ten columns. Every other listing parses.
   */
  lemma {:induction false} ParseFails(kinds: seq<LineKind>, chain: Option<string>)
    ensures ParseFrom(kinds, chain).Err? <==> exists i :: 0 <= i < |kinds| && FailsAt(kinds, chain, i)
  {
    if kinds != [] {
      var next := NextChain(chain, kinds[0]);
      ParseFails(kinds[1..], next);
      FirstLine(kinds, chain);
      if exists j :: 0 <= j < |kinds| - 1 && FailsAt(kinds[1..], next, j) {
        var j :| 0 <= j < |kinds| - 1 && FailsAt(kinds[1..], next, j);
        FailsAtCons(kinds, chain, j + 1);
      }
      if exists i :: 0 < i < |kinds| && FailsAt(kinds, chain, i) {
        var i :| 0 < i < |kinds| && FailsAt(kinds, chain, i);
        FailsAtCons(kinds, chain, i);
      }
    }
  }

  /**
   * The first line either stops the parse with its own error, or the parse is that of the
   * remaining lines, with the first line's rule, if any, in front.
   */
  lemma FirstLine(kinds: seq<LineKind>, chain: Option<string>)
    requires kinds != []
    ensures FailsAt(kinds, chain, 0) ==> ParseFrom(kinds, chain) == Err(FailureAt(kinds, chain, 0))
    ensures !FailsAt(kinds, chain, 0) ==>
      ParseFrom(kinds, chain).Err? == ParseFrom(kinds[1..], NextChain(chain, kinds[0])).Err?
    ensures !FailsAt(kinds, chain, 0) && ParseFrom(kinds, chain).Err? ==>
      ParseFrom(kinds, chain) == ParseFrom(kinds[1..], NextChain(chain, kinds[0]))
  {
    assert kinds[..0] == [];
    var rows := RowOf(chain, kinds[0]);
    assert IsRuleLineAt(kinds, chain, 0) <==> rows != [];
    if !BadHeader(kinds[0]) && rows != [] {
      RowValuesArity(rows[0]);
      assert rows[0].columns == kinds[0].columns;
    }
  }

  /** The first line that stops the parse decides its error. */
  lemma {:induction false} FirstFailureDecides(kinds: seq<LineKind>, chain: Option<string>, i: nat)
    requires i < |kinds| && FailsAt(kinds, chain, i)
    requires forall j :: 0 <= j < i ==> !FailsAt(kinds, chain, j)
    ensures ParseFrom(kinds, chain) == Err(FailureAt(kinds, chain, i))
  {
    FirstLine(kinds, chain);
    if i > 0 {
      var next := NextChain(chain, kinds[0]);
      FailsAtCons(kinds, chain, i);
      forall j | 0 <= j < i - 1 ensures !FailsAt(kinds[1..], next, j) {
        FailsAtCons(kinds, chain, j + 1);
      }
      FirstFailureDecides(kinds[1..], next, i - 1);
    }
  }

  lemma PrependPrepend(a: seq<Rule>, b: seq<Rule>, rest: Result<seq<Rule>, Error>)
    ensures Prepend(a, Prepend(b, rest)) == Prepend(a + b, rest)
  {
    if rest.Ok? {
      assert a + (b + rest.value) == (a + b) + rest.value;
    }
  }

  /** A blank line leaves every chain: the parse goes on outside any chain. */
  lemma StepBlank(kinds: seq<LineKind>, j: nat, chain: Option<string>, line: string)
    requires j < |kinds| && kinds[j] == Classify(line) && line == ""
    ensures ParseFrom(kinds[j..], chain) == ParseFrom(kinds[j + 1..], None)
  {
    ParseAt(kinds, j, chain);
  }

  /** A `Chain` line for a tracked chain: the parse goes on in that chain. */
  lemma StepChain(kinds: seq<LineKind>, j: nat, chain: Option<string>, line: string)
    requires j < |kinds| && kinds[j] == Classify(line) && line != "" && ChainOf(line).Some?
    ensures ParseFrom(kinds[j..], chain) == ParseFrom(kinds[j + 1..], ChainOf(line))
  {
    ParseAt(kinds, j, chain);
  }

  /** A column header: the parse fails unless its columns are the expected ones, and otherwise goes on unchanged. */
  lemma StepHeader(kinds: seq<LineKind>, j: nat, chain: Option<string>, line: string)
    requires j < |kinds| && kinds[j] == Classify(line) && line != "" && ChainOf(line).None? && IsColumnHeader(line)
    ensures ParseFrom(kinds[j..], chain) ==
      if Tokens(line) != Headers then Err(HeaderMismatch(Tokens(line))) else ParseFrom(kinds[j + 1..], chain)
  {
    ParseAt(kinds, j, chain);
  }

  /** Any other line outside a chain, or without a line number, is skipped. */
  lemma StepSkip(kinds: seq<LineKind>, j: nat, chain: Option<string>, line: string)
    requires j < |kinds| && kinds[j] == Classify(line) && line != "" && ChainOf(line).None? && !IsColumnHeader(line)
    requires chain.None? || !IsRuleRow(Tokens(line))
    ensures ParseFrom(kinds[j..], chain) == ParseFrom(kinds[j + 1..], chain)
  {
    ParseAt(kinds, j, chain);
  }

  /** A numbered line inside a chain adds the rule built from it, or fails as building it fails. */
  lemma StepRow(kinds: seq<LineKind>, j: nat, chain: Option<string>, line: string)
    requires j < |kinds| && kinds[j] == Classify(line) && line != "" && ChainOf(line).None? && !IsColumnHeader(line)
    requires chain.Some? && IsRuleRow(Tokens(line))
    ensures ParseFrom(kinds[j..], chain) ==
      match FromList(RowValues(Row(chain.value, Tokens(line))))
      case Err(e) => Err(e)
      case Ok(r) => Prepend([r], ParseFrom(kinds[j + 1..], chain))
  {
    ParseAt(kinds, j, chain);
  }

  /** The parse from line `j` is one step on line `j` followed by the parse of the lines after it. */
  lemma ParseAt(kinds: seq<LineKind>, j: nat, chain: Option<string>)
    requires j < |kinds|
    ensures var kind, rest := kinds[j], ParseFrom(kinds[j + 1..], NextChain(chain, kinds[j]));
      ParseFrom(kinds[j..], chain) ==
        if BadHeader(kind) then Err(HeaderMismatch(kind.columns))
        else if RowOf(chain, kind) == [] then rest
        else match FromList(RowValues(RowOf(chain, kind)[0]))
             case Err(e) => Err(e)
             case Ok(r) => Prepend([r], rest)
  {
    assert kinds[j..][0] == kinds[j] && kinds[j..][1..] == kinds[j + 1..];
  }

  /** The values of a rule line: the extra columns joined, the first ten kept, the chain put in front. */
  method RowColumns(chain: string, columns: seq<string>) returns (values: seq<string>)
    ensures values == RowValues(Row(chain, columns))
  {
    var extra := JoinWith(if |columns| <= 10 then [] else columns[10..], " ");
    ghost var first := if |columns| <= 10 then columns else columns[..10];
    values := if |columns| <= 10 then columns else columns[..10];
    assert values == first;
    values := values + [extra];
    values := [chain] + values;
    RowValuesShape(Row(chain, columns), values);
  }

  /** `_iptables_list` without the call that runs iptables: the loop over the captured text. */
  method ParseListing(output: string) returns (res: Result<seq<Rule>, Error>)
    ensures res == Parse(output)
  {
    var lines := SplitOn(output, '\n');
    ghost var kinds := Kinds(lines);
    var rules: seq<Rule> := [];
    var chain: Option<string> := None;
    var i := 0;
    assert kinds[0..] == kinds;
    assert Prepend([], ParseFrom(kinds, None)) == ParseFrom(kinds, None) by {
      if ParseFrom(kinds, None).Ok? {
        assert [] + ParseFrom(kinds, None).value == ParseFrom(kinds, None).value;
      }
    }
    while i < |lines|
      invariant 0 <= i <= |lines| == |kinds|
      invariant ParseFrom(kinds, None) == Prepend(rules, ParseFrom(kinds[i..], chain))
    {
      KindsAt(lines, i);
      var line := Strip(lines[i]);
      i := i + 1;
      if line == "" {
        StepBlank(kinds, i - 1, chain, line);
        chain := None;
        continue;
      }
      var m := ChainOf(line);
      if m.Some? {
        StepChain(kinds, i - 1, chain, line);
        chain := m;
        continue;
      }
      if IsColumnHeader(line) {
        StepHeader(kinds, i - 1, chain, line);
        if Tokens(line) != Headers {
          return Err(HeaderMismatch(Tokens(line)));
        }
        continue;
      }
      if chain.Some? {
        var columns := Tokens(line);
        if |columns| > 0 && IsDigits(columns[0]) {
          StepRow(kinds, i - 1, chain, line);
          var values := RowColumns(chain.value, columns);
          var built := FromList(values);
          if built.Err? {
            return Err(built.error);
          }
          PrependPrepend(rules, [built.value], ParseFrom(kinds[i..], chain));
          rules := rules + [built.value];
        } else {
          StepSkip(kinds, i - 1, chain, line);
        }
      } else {
        StepSkip(kinds, i - 1, chain, line);
      }
    }
    res := Ok(rules);
    assert rules + [] == rules;
  }
}
