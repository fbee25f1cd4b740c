/**
 * The `rm` command: `rm <path>` removes the node at an absolute path with all
 * of its subnodes. Unlike `add`, the path is used exactly as typed.
 */
module RmCommand {
  import opened Java
  import opened JcrTree
  import opened Jcr

  const ParseError: string := "Error parsing the command line"
  const Usage: string := "Usage: rm /path/to/node"
  const RemoveError: string := "Error while deleting node. "
  /**
   * How Java prints the message of a NullPointerException raised by the
   * runtime: it has none on a JVM without helpful NullPointerException
   * messages (before JDK 15, or with them switched off).
   */
  const NullMessage: string := "null"

  /**
   * RmCommand.parseCommandLine: a null writer or argument array throws
   * NullPointerException, fewer than two tokens give null, and otherwise the
   * path is args[1], untouched.
   */
  function Parsed(outIsNull: bool, args: Option<seq<string>>): (r: Ret<string>)
    ensures r.Throw? <==> outIsNull || args.None?
    ensures r.Throw? ==> r.e == NullPointerException
    ensures r.Null? <==> !outIsNull && args.Some? && |args.value| < 2
    ensures r.Value? ==> |args.value| >= 2 && r.value == args.value[1]
  {
    if outIsNull || args.None? then Throw(NullPointerException)
    else if |args.value| < 2 then Null
    else Value(args.value[1])
  }

  /** No slash is stripped: a relative path reaches the store as it is, and the store refuses it. */
  lemma RelativePathKept(root: Node, rel: string)
    requires !(|rel| > 0 && rel[0] == '/')
    ensures Parsed(false, Some(["rm", rel])) == Value(rel)
    ensures RemoveNodeAt(root, rel).Err?
  {
  }

  method ParseCommandLine(out: Writer?, args: Option<seq<string>>) returns (r: Ret<string>)
    modifies out
    ensures r == Parsed(out == null, args)
    ensures out != null ==> out.lines == old(out.lines) + (if r.Null? then [ParseError, Usage] else [])
  {
    if out == null || args.None? {
      return Throw(NullPointerException);
    }
    if |args.value| < 2 {
      out.Println(ParseError);
      out.Println(Usage);
      return Null;
    }
    r := Value(args.value[1]);
  }

  /**
   * RmCommand.execute. `repo` is what Repository.getRepo() hands out. Every
   * exception is caught here, so a null repository prints the message of the
   * NullPointerException ("null") and returns 1. A parse failure returns 1;
   * a removal is saved and returns 0, or its error is printed and 1 returned.
   * An opened session is always logged out.
   */
  method Execute(out: Writer?, args: Option<seq<string>>, repo: ContentRepository?) returns (c: Completion)
    modifies out, repo
    ensures var p := Parsed(out == null, args);
      && (p.Throw? ==> c == Abrupt(p.e) && (out == null || out.lines == old(out.lines)))
      && (p.Null? ==> c == Normal(1) && out.lines == old(out.lines) + [ParseError, Usage])
      && (!p.Value? ==> repo == null || (repo.root == old(repo.root) && repo.logins == old(repo.logins) && repo.logouts == old(repo.logouts)))
      && (p.Value? && repo == null ==> c == Normal(1) && out.lines == old(out.lines) + [RemoveError + NullMessage])
      && (p.Value? && repo != null ==>
            var r := RemoveNodeAt(old(repo.root), p.value);
            && c == Normal(if r.Ok? then 0 else 1)
            && repo.root == After(old(repo.root), r)
            && repo.logins == old(repo.logins) + 1 && repo.logouts == old(repo.logouts) + 1
            && out.lines == old(out.lines) + (if r.Ok? then [] else [RemoveError + r.message]))
  {
    var p := ParseCommandLine(out, args);
    if p.Throw? {
      return Abrupt(p.e);
    }
    if p.Null? {
      return Normal(1);
    }
    if repo == null {
      out.Println(RemoveError + NullMessage);
      return Normal(1);
    }
    var s := repo.Login();
    var st := s.RemoveNode(p.value);
    if st.Done? {
      s.Save();
      c := Normal(0);
    } else {
      out.Println(RemoveError + st.message);
      c := Normal(1);
    }
    // finally
    s.Logout();
  }
}
