/**
 * The `colour` command: `colour <c>` runs the JCR-SQL2 query for the nodes
 * whose colour property is c and prints their paths.
 */
module ColourCommand {
  import opened Java
  import opened JcrTree
  import opened Jcr

  const ParseError: string := "Error parsing the command line. Provide a colour to search for"
  const Usage: string := "Usage: colour <desired-colour>"
  const NotFound: string := "No nodes found for colour: "
  const SearchError: string := "Error while searching for colour. "

  /** The statement built with String.format: the colour goes between the quotes unescaped. */
  function Statement(c: string): (s: string)
    ensures '\'' !in c ==> ColourQueried(s) == Some(c)
    ensures '\'' in c ==> ColourQueried(s).None?
  {
    var s := ColourQueryPrefix + c + "'";
    var n := |ColourQueryPrefix|;
    assert s[..n] == ColourQueryPrefix && s[n..|s| - 1] == c && s[|s| - 1] == '\'';
    if '\'' in c then
      QuotedColourRejected(c, s);
      s
    else s
  }

  /** A colour with a quote in it does not give a statement of the colour shape. */
  lemma QuotedColourRejected(c: string, s: string)
    requires '\'' in c && s == ColourQueryPrefix + c + "'"
    ensures ColourQueried(s).None?
  {
    var n := |ColourQueryPrefix|;
    assert s[n..|s| - 1] == c;
  }

  /** The printf of one row: two spaces, a dash and the path. */
  function Row(path: string): string
  {
    "  - " + path
  }

  function Rows(paths: seq<string>): (r: seq<string>)
    ensures |r| == |paths|
  {
    if paths == [] then [] else [Row(paths[0])] + Rows(paths[1..])
  }

  lemma {:induction false} RowsAt(paths: seq<string>, k: int)
    requires 0 <= k < |paths|
    ensures Rows(paths)[k] == Row(paths[k])
  {
    if k > 0 {
      RowsAt(paths[1..], k - 1);
    }
  }

  lemma {:induction false} RowsSnoc(paths: seq<string>, p: string)
    ensures Rows(paths + [p]) == Rows(paths) + [Row(p)]
  {
    if paths != [] {
      assert (paths + [p])[1..] == paths[1..] + [p];
      RowsSnoc(paths[1..], p);
    }
  }

  /** What the command prints for the result of its query. */
  function Report(c: string, r: Result<seq<string>>): seq<string>
  {
    match r
    case Err(m) => [SearchError + m]
    case Ok(paths) => if paths == [] then [NotFound + c] else Rows(paths)
  }

  /**
   * On a well-formed tree the k-th line of the report for a quote-free colour
   * names a node that carries the colour.
   */
  lemma ReportedNodesHaveColour(root: Node, c: string, k: int)
    requires WellFormed(root) && '\'' !in c
    requires Matches(root, [], c) != [] && 0 <= k < |Matches(root, [], c)|
    ensures var lines := Report(c, QueryAt(root, Statement(c)));
      var p := Matches(root, [], c)[k];
      |lines| == |Matches(root, [], c)| && lines[k] == Row(p)
      && GetNodeAt(root, p).Ok? && HasColour(GetNodeAt(root, p).value, c)
  {
    var ps := Matches(root, [], c);
    RowsAt(ps, k);
    MatchesSound(root, c, ps[k]);
  }

  /** Every node that carries a quote-free colour is reported, as a row with its path. */
  lemma ColouredNodesReported(root: Node, c: string, segs: seq<string>)
    requires '\'' !in c
    requires Lookup(root, segs).Some? && HasColour(Lookup(root, segs).value, c)
    ensures Row(PathOf(segs)) in Report(c, QueryAt(root, Statement(c)))
  {
    var ps := Matches(root, [], c);
    MatchesComplete(root, segs, c);
    var k :| 0 <= k < |ps| && ps[k] == PathOf(segs);
    RowsAt(ps, k);
  }

  /** "No nodes found" is printed exactly when no node carries the colour. */
  lemma NotFoundIffNoColouredNode(root: Node, c: string)
    requires WellFormed(root) && '\'' !in c
    ensures Report(c, QueryAt(root, Statement(c))) == [NotFound + c]
        <==> forall segs :: Lookup(root, segs).Some? ==> !HasColour(Lookup(root, segs).value, c)
  {
    var ps := Matches(root, [], c);
    if ps == [] {
      forall segs | Lookup(root, segs).Some? ensures !HasColour(Lookup(root, segs).value, c) {
        if HasColour(Lookup(root, segs).value, c) {
          MatchesComplete(root, segs, c);
        }
      }
    } else {
      MatchesSound(root, c, ps[0]);
      var segs := AbsoluteSegments(ps[0]).value;
      assert Lookup(root, segs).Some? && HasColour(Lookup(root, segs).value, c);
      RowsAt(ps, 0);
      assert Row(ps[0])[0] == ' ';
    }
  }

  /** The forEachRemaining over the rows. */
  method PrintRows(out: Writer, paths: seq<string>)
    modifies out
    ensures out.lines == old(out.lines) + Rows(paths)
  {
    for i := 0 to |paths|
      invariant out.lines == old(out.lines) + Rows(paths[..i])
    {
      out.Println(Row(paths[i]));
      RowsSnoc(paths[..i], paths[i]);
      assert paths[..i + 1] == paths[..i] + [paths[i]];
    }
    assert paths[..|paths|] == paths;
  }

  /**
   * ColourCommand.execute. A null writer or argument array throws; fewer than
   * two tokens print the usage and return 1. Otherwise the query's rows, the
   * not-found line or the repository error are printed, the session is logged
   * out, and 0 is returned. `repo` is what Repository.getRepo() hands out; a
   * null one makes login throw a NullPointerException that nothing catches.
   */
  method Execute(out: Writer?, args: Option<seq<string>>, repo: ContentRepository?) returns (c: Completion)
    modifies out, repo
    ensures out == null || args.None? ==> c == Abrupt(NullPointerException) && (out == null || out.lines == old(out.lines))
    ensures out != null && args.Some? && |args.value| < 2 ==>
      c == Normal(1) && out.lines == old(out.lines) + [ParseError, Usage]
    ensures out != null && args.Some? && |args.value| >= 2 && repo == null ==>
      c == Abrupt(NullPointerException) && out.lines == old(out.lines)
    ensures out != null && args.Some? && |args.value| >= 2 && repo != null ==>
      && c == Normal(0)
      && out.lines == old(out.lines) + Report(args.value[1], QueryAt(old(repo.root), Statement(args.value[1])))
      && repo.logins == old(repo.logins) + 1 && repo.logouts == old(repo.logouts) + 1
    ensures repo != null ==> repo.root == old(repo.root)
    ensures repo != null && !(out != null && args.Some? && |args.value| >= 2) ==>
      repo.logins == old(repo.logins) && repo.logouts == old(repo.logouts)
  {
    if out == null || args.None? {
      return Abrupt(NullPointerException);
    }
    if |args.value| < 2 {
      out.Println(ParseError);
      out.Println(Usage);
      return Normal(1);
    }
    var colour := args.value[1];
    var statement := Statement(colour);
    if repo == null {
      return Abrupt(NullPointerException);
    }
    var session := repo.Login();
    var rows := session.Query(statement);
    if rows.Err? {
      out.Println(SearchError + rows.message);
    } else if rows.value != [] {
      PrintRows(out, rows.value);
    } else {
      out.Println(NotFound + colour);
    }
    // finally
    session.Logout();
    c := Normal(0);
  }
}
