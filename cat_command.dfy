/**
 * The `cat` command: `cat <path>` prints every property of the node at the
 * path, one line each, multi-valued properties in brackets.
 */
module CatCommand {
  import opened Java
  import opened JcrTree
  import opened Jcr
  import UpCommand

  /** What the option parser, which declares no options, makes of the tokens. */
  datatype ParsedArgs = OptionError(message: string) | NonOptions(tokens: seq<string>)

  const ParseError: string := "Error parsing the command line"
  /** printHelp. */
  const Help: string := "cat /path/to/view"
  const ViewError: string := "Error while viewing path. "

  /**
   * analyseCommandLine: a null argument array throws NullPointerException and
   * an option (the parser knows none) escapes as an OptionException; with no
   * tokens, or only the command word, the result is null; otherwise it is
   * every non-option token after the command word, in order.
   */
  function Analysed(args: Option<seq<string>>, parsed: ParsedArgs): (r: Ret<seq<string>>)
    ensures args.None? <==> r == Throw(NullPointerException)
    ensures args.Some? && parsed.OptionError? <==> r == Throw(OptionException)
    ensures r.Null? <==> args.Some? && parsed.NonOptions? && |parsed.tokens| <= 1
    ensures r.Value? ==> parsed.NonOptions? && r.value == parsed.tokens[1..] && |r.value| >= 1
  {
    if args.None? then Throw(NullPointerException)
    else match parsed
      case OptionError(_) => Throw(OptionException)
      case NonOptions(tokens) => if |tokens| <= 1 then Null else Value(tokens[1..])
  }

  /** CatCommand.analyseCommandLine: copy the tokens one by one, then drop the command word. */
  method AnalyseCommandLine(args: Option<seq<string>>, parsed: ParsedArgs) returns (r: Ret<seq<string>>)
    ensures r == Analysed(args, parsed)
  {
    if args.None? {
      return Throw(NullPointerException);
    }
    if parsed.OptionError? {
      return Throw(OptionException);
    }
    var nonOptions := parsed.tokens;
    if |nonOptions| == 0 {
      return Null;
    }
    var l: seq<string> := [];
    for i := 0 to |nonOptions|
      invariant l == nonOptions[..i]
    {
      l := l + [nonOptions[i]];
    }
    assert l == nonOptions;
    l := l[1..];
    r := if |l| == 0 then Null else Value(l);
  }

  /** The line printed for one property: "- name: value". */
  function PropertyLine(p: Property): string
  {
    "- " + p.name + ": " + RenderValue(p.value)
  }

  function PropertyLines(props: seq<Property>): (r: seq<string>)
    ensures |r| == |props|
  {
    if props == [] then [] else [PropertyLine(props[0])] + PropertyLines(props[1..])
  }

  lemma {:induction false} PropertyLinesSnoc(props: seq<Property>, p: Property)
    ensures PropertyLines(props + [p]) == PropertyLines(props) + [PropertyLine(p)]
  {
    if props != [] {
      assert (props + [p])[1..] == props[1..] + [p];
      PropertyLinesSnoc(props[1..], p);
    }
  }

  /** The k-th line shows the k-th property: a single value as it is, several values bracketed and joined by ", ". */
  lemma {:induction false} PropertyLineAt(props: seq<Property>, k: int)
    requires 0 <= k < |props|
    ensures PropertyLines(props)[k] == "- " + props[k].name + ": " +
      (match props[k].value
       case Single(s) => s
       case Multi(vs) => "[" + Join(vs, ", ") + "]")
  {
    if k > 0 {
      PropertyLineAt(props[1..], k - 1);
    }
  }

  /** What cat shows for a multi-valued property is read back by up's value splitting. */
  lemma ShownValuesParseBack(vs: seq<string>)
    requires |vs| >= 1
    requires forall i :: 0 <= i < |vs| ==> IsTrimmed(vs[i]) && ',' !in vs[i]
    ensures var shown := RenderValue(Multi(vs));
      |shown| >= 2 && UpCommand.Values(shown[1..|shown| - 1]) == vs
  {
    var shown := RenderValue(Multi(vs));
    assert shown[1..|shown| - 1] == Join(vs, ", ");
    UpCommand.ValuesOfJoin(vs);
  }

  /** The forEachRemaining over the node's properties. */
  method PrintProperties(out: Writer, props: seq<Property>)
    modifies out
    ensures out.lines == old(out.lines) + PropertyLines(props)
  {
    for i := 0 to |props|
      invariant out.lines == old(out.lines) + PropertyLines(props[..i])
    {
      out.Println(PropertyLine(props[i]));
      PropertyLinesSnoc(props[..i], props[i]);
      assert props[..i + 1] == props[..i] + [props[i]];
    }
    assert props[..|props|] == props;
  }

  /** What execute prints once the session is open: the properties, or the lookup error. */
  function Shown(root: Node, path: string): seq<string>
  {
    match GetNodeAt(root, path)
    case Ok(n) => PropertyLines(n.props)
    case Err(m) => [ViewError + m]
  }

  /**
   * CatCommand.execute. A bad command line prints the error and the help and
   * returns 1. Otherwise only the first path is viewed, and 0 is returned even
   * when the node cannot be read. The session is never logged out. `repo` is
   * what Repository.getRepo() hands out; a null one makes login throw.
   */
  method Execute(out: Writer, args: Option<seq<string>>, parsed: ParsedArgs, repo: ContentRepository?)
    returns (c: Completion)
    modifies out, repo
    ensures var a := Analysed(args, parsed);
      && (a.Throw? ==> c == Abrupt(a.e) && out.lines == old(out.lines))
      && (a.Null? ==> c == Normal(1) && out.lines == old(out.lines) + [ParseError, Help])
      && (!a.Value? ==> repo == null || (repo.logins == old(repo.logins) && repo.logouts == old(repo.logouts)))
      && (a.Value? && repo == null ==> c == Abrupt(NullPointerException) && out.lines == old(out.lines))
      && (a.Value? && repo != null ==>
            && c == Normal(0)
            && out.lines == old(out.lines) + Shown(old(repo.root), a.value[0])
            && repo.logins == old(repo.logins) + 1 && repo.logouts == old(repo.logouts))
    ensures repo != null ==> repo.root == old(repo.root)
  {
    var paths := AnalyseCommandLine(args, parsed);
    if paths.Throw? {
      return Abrupt(paths.e);
    }
    if paths.Null? {
      out.Println(ParseError);
      out.Println(Help);
      return Normal(1);
    }
    if repo == null {
      return Abrupt(NullPointerException);
    }
    var session := repo.Login();
    var n := session.GetNode(paths.value[0]);
    if n.Ok? {
      PrintProperties(out, n.value.props);
    } else {
      out.Println(ViewError + n.message);
    }
    c := Normal(0);
  }
}
