/**
 * The shell's verb table: a closed set of eight commands, the lookup of the
 * first token of a command line (upper-cased, matched against the constant
 * names), and the ordering by upper-cased name used by the help screen.
 */
module Commands {
  import opened Java

  /** The enum constants, each standing for the handler it is bound to. */
  datatype Verb = EXIT | LS | HELP | CAT | ADD | RM | UP | COLOUR

  /** Commands.values(): the constants in declaration order. */
  const Values: seq<Verb> := [EXIT, LS, HELP, CAT, ADD, RM, UP, COLOUR]

  /** The name each constant is declared with. */
  function Name(v: Verb): string
  {
    match v
    case EXIT => "exit"
    case LS => "ls"
    case HELP => "help"
    case CAT => "cat"
    case ADD => "add"
    case RM => "rm"
    case UP => "up"
    case COLOUR => "colour"
  }

  /** The constant's own identifier, as Enum.valueOf matches it. */
  function ConstantName(v: Verb): string
  {
    match v
    case EXIT => "EXIT"
    case LS => "LS"
    case HELP => "HELP"
    case CAT => "CAT"
    case ADD => "ADD"
    case RM => "RM"
    case UP => "UP"
    case COLOUR => "COLOUR"
  }

  /** Each declared name upper-cases to its constant's identifier. */
  lemma UpperNameIsConstantName(v: Verb)
    ensures ToUpper(Name(v)) == ConstantName(v)
  {
    var n := Name(v);
    assert forall i :: 0 <= i < |n| ==> UpperChar(n[i]) == ConstantName(v)[i];
  }

  /** Enum.valueOf: the constant with exactly this identifier. */
  function ValueOf(s: string): (r: Option<Verb>)
    ensures r.Some? ==> ConstantName(r.value) == s
    ensures r.None? ==> forall v :: ConstantName(v) != s
  {
    if s == "EXIT" then Some(EXIT)
    else if s == "LS" then Some(LS)
    else if s == "HELP" then Some(HELP)
    else if s == "CAT" then Some(CAT)
    else if s == "ADD" then Some(ADD)
    else if s == "RM" then Some(RM)
    else if s == "UP" then Some(UP)
    else if s == "COLOUR" then Some(COLOUR)
    else None
  }

  /**
   * Commands.parse: a null array throws NullPointerException, an empty one
   * ArrayIndexOutOfBoundsException (args[0]); otherwise the first token picks
   * the verb whose name it equals ignoring case, and any other token throws
   * IllegalArgumentException. None is the null array.
   */
  function Parse(args: Option<seq<string>>): (r: Ret<Verb>)
    ensures args.None? <==> r == Throw(NullPointerException)
    ensures args == Some([]) <==> r == Throw(ArrayIndexOutOfBoundsException)
    ensures forall v :: r == Value(v) <==>
      args.Some? && |args.value| > 0 && ToUpper(args.value[0]) == ToUpper(Name(v))
    ensures r == Throw(IllegalArgumentException) <==>
      args.Some? && |args.value| > 0 && forall v :: ToUpper(args.value[0]) != ToUpper(Name(v))
    ensures !r.Null?
  {
    forall v: Verb ensures ToUpper(Name(v)) == ConstantName(v) {
      UpperNameIsConstantName(v);
    }
    match args
    case None => Throw(NullPointerException)
    case Some(a) =>
      if |a| == 0 then Throw(ArrayIndexOutOfBoundsException)
      else match ValueOf(ToUpper(a[0]))
        case None => Throw(IllegalArgumentException)
        case Some(v) => Value(v)
  }

  /** Every declared verb, typed as its name in any case, resolves to itself whatever follows it. */
  lemma ParseEveryVerb(v: Verb, token: string, rest: seq<string>)
    requires ToUpper(token) == ConstantName(v)
    ensures Parse(Some([token] + rest)) == Value(v)
  {
    UpperNameIsConstantName(v);
  }

  /**
   * The sort key of LEXICOGRAPHICALLY_ORDER: the upper-cased name, which is
   * the constant's identifier (UpperNameIsConstantName).
   */
  function Key(v: Verb): string
  {
    ConstantName(v)
  }

  /** Distinct commands have distinct keys. */
  lemma KeyInjective(a: Verb, b: Verb)
    ensures Key(a) == Key(b) <==> a == b
  {
  }

  /** The comparison behind LEXICOGRAPHICALLY_ORDER, on non-null operands. */
  function Order(a: Verb, b: Verb): int
  {
    CompareTo(Key(a), Key(b))
  }

  /** LEXICOGRAPHICALLY_ORDER.compare; None is a null operand. */
  function Compare(o1: Option<Verb>, o2: Option<Verb>): (r: Ret<int>)
    ensures o1.None? || o2.None? <==> r == Throw(NullPointerException)
    ensures o1.Some? && o2.Some? ==> r == Value(CompareTo(ToUpper(Name(o1.value)), ToUpper(Name(o2.value))))
  {
    if o1.None? || o2.None? then Throw(NullPointerException)
    else
      UpperNameIsConstantName(o1.value);
      UpperNameIsConstantName(o2.value);
      Value(Order(o1.value, o2.value))
  }

  /** The comparator is zero exactly on equal commands. */
  lemma OrderZeroIff(a: Verb, b: Verb)
    ensures Order(a, b) == 0 <==> a == b
  {
    KeyInjective(a, b);
    CompareToZeroIff(Key(a), Key(b));
  }

  /** Swapping the operands negates the comparison. */
  lemma OrderAntisymmetric(a: Verb, b: Verb)
    ensures Order(a, b) == -Order(b, a)
  {
    CompareToAntisymmetric(Key(a), Key(b));
  }

  lemma OrderTransitive(a: Verb, b: Verb, c: Verb)
    requires Order(a, b) < 0 && Order(b, c) < 0
    ensures Order(a, c) < 0
  {
    CompareToTransitive(Key(a), Key(b), Key(c));
  }

  /** HELP sorts after EXIT, and the comparator says so from both sides. */
  lemma HelpAfterExit()
    ensures Order(HELP, EXIT) > 0 && Order(EXIT, HELP) < 0 && Order(HELP, HELP) == 0
  {
    OrderZeroIff(HELP, HELP);
  }
}
