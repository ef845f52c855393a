/**
 * The rule value object: one line of an iptables listing, built either from
 * the twelve listing columns (positionally) or from a dictionary of fields
 * with defaults, and compared in a way that ignores the volatile counters.
 */
module Rules {
  import opened Wrappers

  /** The twelve attributes of a rule, in their declaration order. */
  datatype Field = Chain | Num | Pkts | Bytes | Target | Prot | Opt | Inp | Out | Source | Destination | Extra

  const FieldOrder: seq<Field> := [Chain, Num, Pkts, Bytes, Target, Prot, Opt, Inp, Out, Source, Destination, Extra]

  /** The chains the model tracks and can build commands for. */
  const Chains: seq<string> := ["INPUT", "OUTPUT", "FORWARD"]

  /** The address that stands for "any host". */
  const AnyAddress: string := "0.0.0.0/0"

  /** The fields that rule equality compares; num, pkts, bytes and extra are not among them. */
  const Compared: set<Field> := {Chain, Target, Prot, Opt, Inp, Out, Source, Destination}

  /**
   * A rule. The five fields that a dictionary may leave unset (and that then
   * hold None) are options; the others always hold text.
   */
  datatype Rule = Rule(
    chain: Option<string>, num: Option<string>, pkts: Option<string>, bytes: Option<string>,
    target: Option<string>, prot: string, opt: string, inp: string, out: string,
    source: string, destination: string, extra: string)

  /** The ways the rule code can fail, one per exception iptables.py raises. */
  datatype Error =
    | WrongArity(count: nat)            // positional construction from other than twelve values
    | UnknownField                      // a dictionary key that names no attribute
    | HeaderMismatch(columns: seq<string>) // the listing's column header is not the expected one
    | UnsupportedChain                  // a command for a rule outside INPUT/OUTPUT/FORWARD
    | MissingTarget                     // a command for a rule without a target
    | UnsupportedModifier(given: string) // an insert/delete wrapper other than I or D

  /** `getattr(rule, name)` for the attribute `f`. */
  function Get(r: Rule, f: Field): Option<string>
  {
    match f
    case Chain => r.chain
    case Num => r.num
    case Pkts => r.pkts
    case Bytes => r.bytes
    case Target => r.target
    case Prot => Some(r.prot)
    case Opt => Some(r.opt)
    case Inp => Some(r.inp)
    case Out => Some(r.out)
    case Source => Some(r.source)
    case Destination => Some(r.destination)
    case Extra => Some(r.extra)
  }

  /** The attribute name of a field ("in" is spelled "inp" to avoid the keyword). */
  function FieldName(f: Field): string
  {
    match f
    case Chain => "chain"
    case Num => "num"
    case Pkts => "pkts"
    case Bytes => "bytes"
    case Target => "target"
    case Prot => "prot"
    case Opt => "opt"
    case Inp => "inp"
    case Out => "out"
    case Source => "source"
    case Destination => "destination"
    case Extra => "extra"
  }

  /** The field an attribute name denotes, if any. */
  function FieldNamed(name: string): (f: Option<Field>)
    ensures f.Some? ==> FieldName(f.value) == name
    ensures f.None? ==> forall g: Field :: FieldName(g) != name
  {
    if name == "chain" then Some(Chain)
    else if name == "num" then Some(Num)
    else if name == "pkts" then Some(Pkts)
    else if name == "bytes" then Some(Bytes)
    else if name == "target" then Some(Target)
    else if name == "prot" then Some(Prot)
    else if name == "opt" then Some(Opt)
    else if name == "inp" then Some(Inp)
    else if name == "out" then Some(Out)
    else if name == "source" then Some(Source)
    else if name == "destination" then Some(Destination)
    else if name == "extra" then Some(Extra)
    else None
  }

  /** Every field has a distinct name, and the name leads back to the field. */
  lemma FieldNamesRoundTrip(f: Field)
    ensures FieldNamed(FieldName(f)) == Some(f)
  {
  }

  /** The value the dictionary constructor gives a field the dictionary leaves out. */
  function Default(f: Field): Option<string>
  {
    match f
    case Chain | Num | Pkts | Bytes | Target => None
    case Prot => Some("all")
    case Opt => Some("--")
    case Inp | Out => Some("*")
    case Source | Destination => Some(AnyAddress)
    case Extra => Some("")
  }

  /** `Rule(list)`: the values taken positionally, which needs exactly one per attribute. */
  function FromList(values: seq<string>): (res: Result<Rule, Error>)
    ensures res.Ok? <==> |values| == |FieldOrder|
    ensures res.Err? ==> res.error == WrongArity(|values|)
  {
    if |values| != 12 then Err(WrongArity(|values|))
    else
      Ok(Rule(Some(values[0]), Some(values[1]), Some(values[2]), Some(values[3]), Some(values[4]),
              values[5], values[6], values[7], values[8], values[9], values[10], values[11]))
  }

  /** A rule built from a list holds the list's values, attribute by attribute, in declaration order. */
  lemma FromListPositions(values: seq<string>)
    requires |values| == |FieldOrder|
    ensures forall i :: 0 <= i < |FieldOrder| ==> Get(FromList(values).value, FieldOrder[i]) == Some(values[i])
  {
  }

  function PickOption(props: map<string, string>, name: string): Option<string>
  {
    if name in props then Some(props[name]) else None
  }

  function Pick(props: map<string, string>, name: string, default: string): string
  {
    if name in props then props[name] else default
  }

  /**
   * `Rule(dict)`: the defaults, overridden by whatever the dictionary supplies;
   * a key that names no attribute is refused.
   */
  function FromFields(props: map<string, string>): (res: Result<Rule, Error>)
    ensures res.Ok? <==> forall k :: k in props ==> FieldNamed(k).Some?
    ensures res.Err? ==> res.error == UnknownField
  {
    if exists k :: k in props && FieldNamed(k).None? then Err(UnknownField)
    else
      Ok(Rule(PickOption(props, "chain"), PickOption(props, "num"), PickOption(props, "pkts"),
              PickOption(props, "bytes"), PickOption(props, "target"),
              Pick(props, "prot", "all"), Pick(props, "opt", "--"), Pick(props, "inp", "*"),
              Pick(props, "out", "*"), Pick(props, "source", AnyAddress),
              Pick(props, "destination", AnyAddress), Pick(props, "extra", "")))
  }

  /** A field of a rule built from a dictionary holds the dictionary's value for it, or else its default. */
  lemma FromFieldsAssigns(props: map<string, string>, f: Field)
    requires FromFields(props).Ok?
    ensures Get(FromFields(props).value, f) ==
      if FieldName(f) in props then Some(props[FieldName(f)]) else Default(f)
  {
    match f
    case Chain =>
    case Num =>
    case Pkts =>
    case Bytes =>
    case Target =>
    case Prot =>
    case Opt =>
    case Inp =>
    case Out =>
    case Source =>
    case Destination =>
    case Extra =>
  }

  /** The other operand of `==`: either a rule or some other kind of object. */
  datatype Operand = RuleValue(rule: Rule) | NonRule

  /** `rule == other`: only another rule can be equal, and only the compared fields count. */
  function Equal(a: Rule, other: Operand): (eq: bool)
    ensures eq <==> other.RuleValue? && forall f :: f in Compared ==> Get(a, f) == Get(other.rule, f)
  {
    match other
    case NonRule => false
    case RuleValue(b) =>
      a.chain == b.chain && a.target == b.target && a.prot == b.prot && a.opt == b.opt
      && a.inp == b.inp && a.out == b.out && a.source == b.source && a.destination == b.destination
  }

  /** `rule != other`: some compared field differs, or the other operand is no rule. */
  function NotEqual(a: Rule, other: Operand): (ne: bool)
    ensures ne <==> other.NonRule? || exists f :: f in Compared && Get(a, f) != Get(other.rule, f)
  {
    !Equal(a, other)
  }

  /** Rule equality is an equivalence relation on rules. */
  lemma EqualIsEquivalence(a: Rule, b: Rule, c: Rule)
    ensures Equal(a, RuleValue(a))
    ensures Equal(a, RuleValue(b)) ==> Equal(b, RuleValue(a))
    ensures Equal(a, RuleValue(b)) && Equal(b, RuleValue(c)) ==> Equal(a, RuleValue(c))
  {
  }

  /** Changing the counters, the position or the extra text never changes equality. */
  lemma EqualIgnoresVolatile(a: Rule, num: Option<string>, pkts: Option<string>, bytes: Option<string>, extra: string)
    ensures Equal(a, RuleValue(a.(num := num, pkts := pkts, bytes := bytes, extra := extra)))
  {
  }

  /** Changing any compared field makes the rules unequal. */
  lemma EqualSeesComparedFields(a: Rule, b: Rule, f: Field)
    requires f in Compared && Get(a, f) != Get(b, f)
    ensures !Equal(a, RuleValue(b)) && NotEqual(a, RuleValue(b))
  {
  }
}
