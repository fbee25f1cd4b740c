/**
 * The `ls` command: `ls <path>` prints the names of the children of the node
 * at the path, in their order, or "-- No children".
 */
module ListCommand {
  import opened Java
  import opened JcrTree
  import opened Jcr

  const ParseError: string := "Error parsing the command line."
  const Usage: string := "Usage: ls /path/to/node"
  const NoChildren: string := "-- No children"

  /** The printf of the repository-error branch: "Error while listing path <p> - <message>". */
  function ListError(p: string, message: string): string
  {
    "Error while listing path " + p + " - " + message
  }

  /**
   * ListCommand.analyseCommandLine: a null writer or argument array throws
   * NullPointerException, fewer than two tokens give null, and otherwise the
   * result is every token after the command word, in order.
   */
  function Analysed(outIsNull: bool, args: Option<seq<string>>): (r: Ret<seq<string>>)
    ensures r.Throw? <==> outIsNull || args.None?
    ensures r.Throw? ==> r.e == NullPointerException
    ensures r.Null? <==> !outIsNull && args.Some? && |args.value| < 2
    ensures r.Value? ==> |r.value| == |args.value| - 1 >= 1 && forall i :: 1 <= i < |args.value| ==> r.value[i - 1] == args.value[i]
  {
    if outIsNull || args.None? then Throw(NullPointerException)
    else if |args.value| < 2 then Null
    else Value(args.value[1..])
  }

  method AnalyseCommandLine(out: Writer?, args: Option<seq<string>>) returns (r: Ret<seq<string>>)
    ensures r == Analysed(out == null, args)
  {
    if out == null || args.None? {
      return Throw(NullPointerException);
    }
    var a := args.value;
    if |a| < 2 {
      return Null;
    }
    var l: seq<string> := [];
    for i := 1 to |a|
      invariant l == a[1..i]
    {
      l := l + [a[i]];
    }
    assert l == a[1..];
    r := Value(l);
  }

  /** The names of a sequence of nodes, in order. */
  function Names(cs: seq<Node>): (r: seq<string>)
    ensures |r| == |cs|
  {
    if cs == [] then [] else [cs[0].name] + Names(cs[1..])
  }

  lemma {:induction false} NamesAt(cs: seq<Node>, k: int)
    requires 0 <= k < |cs|
    ensures Names(cs)[k] == cs[k].name
  {
    if k > 0 {
      NamesAt(cs[1..], k - 1);
    }
  }

  lemma {:induction false} NamesSnoc(cs: seq<Node>, c: Node)
    ensures Names(cs + [c]) == Names(cs) + [c.name]
  {
    if cs != [] {
      assert (cs + [c])[1..] == cs[1..] + [c];
      NamesSnoc(cs[1..], c);
    }
  }

  /** What ls prints for a node it found. */
  function Listing(n: Node): (r: seq<string>)
    ensures n.children == [] ==> r == [NoChildren]
    ensures n.children != [] ==> |r| == |n.children| && forall k :: 0 <= k < |r| ==> r[k] == n.children[k].name
  {
    if n.children == [] then [NoChildren]
    else
      forall k | 0 <= k < |n.children| ensures Names(n.children)[k] == n.children[k].name {
        NamesAt(n.children, k);
      }
      Names(n.children)
  }

  /**
   * In a well-formed tree every name ls lists leads, appended to the listed
   * path, to exactly the child printed at that place.
   */
  lemma ListedNamesLeadToChildren(root: Node, segs: seq<string>, k: int)
    requires WellFormed(root)
    requires forall i :: 0 <= i < |segs| ==> ValidName(segs[i])
    requires Lookup(root, segs).Some?
    requires 0 <= k < |Lookup(root, segs).value.children|
    ensures var n := Lookup(root, segs).value;
      GetNodeAt(root, PathOf(segs)) == Ok(n)
      && GetNodeAt(root, ChildPath(PathOf(segs), Listing(n)[k])) == Ok(n.children[k])
  {
    var n := Lookup(root, segs).value;
    var name := n.children[k].name;
    PathOfParses(segs);
    WellFormedLookup(root, segs);
    DistinctChildIndex(n.children, k);
    ChildPathOf(segs, name);
    assert forall i :: 0 <= i < |segs + [name]| ==> ValidName((segs + [name])[i]);
    PathOfParses(segs + [name]);
    LookupAppend(root, segs, [name]);
  }

  /** The forEachRemaining over the children. */
  method PrintNames(out: Writer, cs: seq<Node>)
    modifies out
    ensures out.lines == old(out.lines) + Names(cs)
  {
    for i := 0 to |cs|
      invariant out.lines == old(out.lines) + Names(cs[..i])
    {
      out.Println(cs[i].name);
      NamesSnoc(cs[..i], cs[i]);
      assert cs[..i + 1] == cs[..i] + [cs[i]];
    }
    assert cs[..|cs|] == cs;
  }

  /**
   * ListCommand.execute. Only the first path is listed. `repo` is what
   * Repository.getRepo() hands out; a null one makes login throw a
   * NullPointerException that nothing catches. A path that does not resolve
   * prints the error and returns 1. The session is never logged out.
   */
  method Execute(out: Writer?, args: Option<seq<string>>, repo: ContentRepository?) returns (c: Completion)
    modifies out, repo
    ensures var a := Analysed(out == null, args);
      && (a.Throw? ==> c == Abrupt(a.e) && (out == null || out.lines == old(out.lines)))
      && (a.Null? ==> c == Normal(1) && out.lines == old(out.lines) + [ParseError, Usage])
      && (!a.Value? ==> repo == null || (repo.logins == old(repo.logins) && repo.logouts == old(repo.logouts)))
      && (a.Value? && repo == null ==> c == Abrupt(NullPointerException) && out.lines == old(out.lines))
      && (a.Value? && repo != null ==>
            var p := a.value[0];
            var r := GetNodeAt(old(repo.root), p);
            && c == Normal(if r.Ok? then 0 else 1)
            && out.lines == old(out.lines) + (if r.Ok? then Listing(r.value) else [ListError(p, r.message)])
            && repo.logins == old(repo.logins) + 1 && repo.logouts == old(repo.logouts))
    ensures repo != null ==> repo.root == old(repo.root)
  {
    var options := AnalyseCommandLine(out, args);
    if options.Throw? {
      return Abrupt(options.e);
    }
    if options.Null? {
      out.Println(ParseError);
      out.Println(Usage);
      return Normal(1);
    }
    var p := options.value[0];
    if repo == null {
      return Abrupt(NullPointerException);
    }
    var session := repo.Login();
    var node := session.GetNode(p);
    if node.Err? {
      out.Println(ListError(p, node.message));
      return Normal(1);
    }
    if node.value.children == [] {
      out.Println(NoChildren);
    } else {
      PrintNames(out, node.value.children);
    }
    c := Normal(0);
  }
}
