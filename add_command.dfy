/**
 * The `add` command: `add <path> <primaryType>` adds a node below the root.
 * The path may be given with or without one leading slash.
 */
module AddCommand {
  import opened Java
  import opened JcrTree
  import opened Jcr

  datatype Options = Options(path: string, primaryType: string)

  const ParseError: string := "Error parsing the command line"
  const Usage: string := "Usage: add /path/to/node jcr:primaryType"
  const AddError: string := "Error while adding node. "

  predicate StartsWithSlash(p: string)
  {
    |p| > 0 && p[0] == '/'
  }

  /** The Options constructor: exactly one leading slash is dropped, so the path is relative to the root. */
  function MakeOptions(p: string, t: string): (o: Options)
    ensures StartsWithSlash(p) ==> "/" + o.path == p
    ensures !StartsWithSlash(p) ==> o.path == p
    ensures |o.path| == |p| - (if StartsWithSlash(p) then 1 else 0)
    ensures o.primaryType == t
  {
    if StartsWithSlash(p) then
      assert p == "/" + p[1..];
      Options(p[1..], t)
    else Options(p, t)
  }

  /** Only one slash goes: "//a" keeps a slash in front. */
  lemma OnlyOneSlashStripped()
    ensures MakeOptions("//a", "t").path == "/a"
  {
  }

  /** The two spellings the unit tests use name the same node. */
  lemma BothSpellingsAgree(rel: string, t: string)
    requires !StartsWithSlash(rel)
    ensures MakeOptions("/" + rel, t) == MakeOptions(rel, t)
  {
    assert ("/" + rel)[1..] == rel;
  }

  /**
   * AddCommand.parseCommandLine: a null argument array or writer throws
   * NullPointerException, fewer than three tokens give null, and otherwise
   * the options are built from args[1] and args[2] alone.
   */
  function Parsed(outIsNull: bool, args: Option<seq<string>>): (r: Ret<Options>)
    ensures r.Throw? <==> outIsNull || args.None?
    ensures r.Throw? ==> r.e == NullPointerException
    ensures r.Null? <==> !outIsNull && args.Some? && |args.value| < 3
    ensures r.Value? ==> |args.value| >= 3 && r.value == MakeOptions(args.value[1], args.value[2])
  {
    if args.None? || outIsNull then Throw(NullPointerException)
    else if |args.value| < 3 then Null
    else Value(MakeOptions(args.value[1], args.value[2]))
  }

  /** Tokens after the primary type change nothing. */
  lemma ExtraTokensIgnored(args: seq<string>, more: seq<string>)
    requires |args| >= 3
    ensures Parsed(false, Some(args + more)) == Parsed(false, Some(args))
  {
    assert (args + more)[1] == args[1] && (args + more)[2] == args[2];
  }

  method ParseCommandLine(out: Writer?, args: Option<seq<string>>) returns (r: Ret<Options>)
    modifies out
    ensures r == Parsed(out == null, args)
    ensures out != null ==> out.lines == old(out.lines) + (if r.Null? then [ParseError, Usage] else [])
  {
    if args.None? || out == null {
      return Throw(NullPointerException);
    }
    if |args.value| < 3 {
      out.Println(ParseError);
      out.Println(Usage);
      return Null;
    }
    r := Value(MakeOptions(args.value[1], args.value[2]));
  }

  /**
   * A node the command added is found at the absolute form of the path, as an
   * empty node of the requested primary type.
   */
  lemma AddedNodeIsFound(root: Node, args: seq<string>)
    requires Parsed(false, Some(args)).Value?
    requires AddNodeAt(root, Parsed(false, Some(args)).value.path, args[2]).Ok?
    ensures var o := Parsed(false, Some(args)).value;
      var r := GetNodeAt(AddNodeAt(root, o.path, args[2]).value, "/" + o.path);
      r.Ok? && r.value.props == [Property(PrimaryType, Single(args[2]))] && r.value.children == []
  {
    var o := Parsed(false, Some(args)).value;
    AddNodeThenGet(root, o.path, args[2]);
  }

  /**
   * AddCommand.execute. `repo` is what Repository.getRepo() hands out; a null
   * one makes login throw a NullPointerException that nothing catches. A parse
   * failure returns 1; otherwise the node is added and saved and 0 returned,
   * or the repository error is printed and 1 returned. An opened session is
   * always logged out.
   */
  method Execute(out: Writer?, args: Option<seq<string>>, repo: ContentRepository?) returns (c: Completion)
    modifies out, repo
    ensures var p := Parsed(out == null, args);
      && (p.Throw? ==> c == Abrupt(p.e))
      && (p.Null? ==> c == Normal(1) && out.lines == old(out.lines) + [ParseError, Usage])
      && (!p.Value? ==> repo == null || (repo.root == old(repo.root) && repo.logins == old(repo.logins) && repo.logouts == old(repo.logouts)))
      && (p.Value? && repo == null ==> c == Abrupt(NullPointerException))
      && (p.Throw? || (p.Value? && repo == null) ==> out == null || out.lines == old(out.lines))
      && (p.Value? && repo != null ==>
            var r := AddNodeAt(old(repo.root), p.value.path, p.value.primaryType);
            && c == Normal(if r.Ok? then 0 else 1)
            && repo.root == After(old(repo.root), r)
            && repo.logins == old(repo.logins) + 1 && repo.logouts == old(repo.logouts) + 1
            && out.lines == old(out.lines) + (if r.Ok? then [] else [AddError + r.message]))
  {
    var o := ParseCommandLine(out, args);
    if o.Throw? {
      return Abrupt(o.e);
    }
    if o.Null? {
      return Normal(1);
    }
    if repo == null {
      return Abrupt(NullPointerException);
    }
    var s := repo.Login();
    var st := s.AddNode(o.value.path, o.value.primaryType);
    if st.Done? {
      s.Save();
      c := Normal(0);
    } else {
      out.Println(AddError + st.message);
      c := Normal(1);
    }
    // finally
    s.Logout();
  }
}
