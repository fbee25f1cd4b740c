/**
 * The `up` command: `up <path> --delete <name>` removes a property and
 * `up <path> --edit <name> <v1,v2,...>` sets one, single-valued when exactly
 * one value is given. The option parser's result is taken as an input record.
 */
module UpCommand {
  import opened Java
  import opened JcrTree
  import opened Jcr

  datatype Operation = DELETE | EDIT

  /** What the command line asks for; `values` is null (None) for a delete. */
  datatype Instruction = Instruction(op: Operation, path: string, propertyName: string, values: Option<seq<string>>)

  /**
   * The joptsimple OptionSet for the `--edit` and `--delete` options, each with
   * a required argument: either the parse failed, or the arguments of the two
   * options and the non-option tokens in order.
   */
  datatype OptionSet =
    | OptionError(message: string)
    | Options(edit: Option<string>, delete: Option<string>, nonOptions: seq<string>)

  const ParseError: string := "Error parsing the command line. "
  const MissingPath: string := "Error parsing the command line. Missing node path."
  const MissingValues: string := "Error parsing the command line. Missing property values for edit operation"
  const MissingOperation: string := "Error parsing the command line. Missing or non valid operation"
  const UpdateError: string := "Error updating node. "
  /** The first line of printHelp; the option table joptsimple prints after it is not modelled. */
  const Usage: string := "\nUsage: up <option> [option params]\n"

  // ---------------------------------------------------------------------
  // Value splitting: split(",") then trim each piece
  // ---------------------------------------------------------------------

  /** The pieces, each trimmed, in order. */
  function TrimAll(parts: seq<string>): seq<string>
  {
    seq(|parts|, i requires 0 <= i < |parts| => Trim(parts[i]))
  }

  /** The values of an edit: the token split on commas, each piece trimmed, in order. */
  function Values(token: string): seq<string>
  {
    TrimAll(JavaSplit(token, ','))
  }

  /** Pieces of a split never hold the separator. */
  lemma {:induction false} SplitAllNoSeparator(s: string, c: char)
    ensures forall i :: 0 <= i < |SplitAll(s, c)| ==> c !in SplitAll(s, c)[i]
  {
    if s != [] {
      SplitAllNoSeparator(s[1..], c);
      var rest := SplitAll(s[1..], c);
      if s[0] != c {
        assert c !in [s[0]] + rest[0];
      }
    }
  }

  /** Every value is trimmed and free of commas. */
  lemma ValuesAreTrimmedPieces(token: string)
    ensures forall i :: 0 <= i < |Values(token)| ==> IsTrimmed(Values(token)[i]) && ',' !in Values(token)[i]
  {
    var parts := JavaSplit(token, ',');
    var all := SplitAll(token, ',');
    SplitAllNoSeparator(token, ',');
    forall i | 0 <= i < |parts| ensures IsTrimmed(Values(token)[i]) && ',' !in Values(token)[i] {
      if ',' !in token {
        assert parts == [token];
      } else {
        assert parts == DropTrailingEmpty(all);
        assert parts[i] == all[i];
      }
      assert ',' !in parts[i];
      assert Values(token)[i] == Trim(parts[i]);
      TrimIsTrimmed(parts[i]);
      TrimKeepsOut(parts[i], ',');
    }
  }

  /** A token without a comma is one value: the token trimmed. */
  lemma ValuesOfOne(token: string)
    requires ',' !in token
    ensures Values(token) == [Trim(token)]
  {
    var p := JavaSplit(token, ',');
    assert p == [token];
    var t := TrimAll(p);
    assert |t| == 1 && t[0] == Trim(token);
  }

  /** Each value preceded by a blank, as the pieces of a ", " join split on ','. */
  function Padded(vs: seq<string>): (r: seq<string>)
    ensures |r| == |vs|
  {
    if vs == [] then [] else [" " + vs[0]] + Padded(vs[1..])
  }

  lemma {:induction false} JoinPadded(ws: seq<string>)
    requires |ws| >= 1
    ensures Join(Padded(ws), ",") == " " + Join(ws, ", ")
  {
    if |ws| > 1 {
      JoinPadded(ws[1..]);
      assert Padded(ws)[1..] == Padded(ws[1..]);
    }
  }

  /** A ", " join of two or more values is the ',' join of the values padded after the first. */
  lemma JoinAsPieces(vs: seq<string>)
    requires |vs| >= 2
    ensures Join(vs, ", ") == Join([vs[0]] + Padded(vs[1..]), ",")
  {
    var pad := Padded(vs[1..]);
    var pieces := [vs[0]] + pad;
    var rest := Join(vs[1..], ", ");
    JoinPadded(vs[1..]);
    assert pieces[1..] == pad;
    assert Join(pieces, ",") == vs[0] + "," + (" " + rest);
    CommaThenBlank(vs[0], rest);
  }

  lemma CommaThenBlank(a: string, b: string)
    ensures a + "," + (" " + b) == a + ", " + b
  {
    var l := a + "," + (" " + b);
    var r := a + ", " + b;
    forall i | 0 <= i < |l| ensures l[i] == r[i] {
      if i < |a| {
        assert l[i] == a[i] == r[i];
      } else if i > |a| + 1 {
        assert l[i] == b[i - |a| - 2] == r[i];
      }
    }
  }

  /** A join of two or more values holds the separator. */
  lemma CommaInJoin(vs: seq<string>)
    requires |vs| >= 2
    ensures ',' in Join(vs, ", ")
  {
    var j := Join(vs, ", ");
    assert j == vs[0] + ", " + Join(vs[1..], ", ");
    assert j[|vs[0]|] == ',';
  }

  /** Splitting such a join on ',' gives back the padded pieces. */
  lemma SplitJoinedValues(vs: seq<string>)
    requires |vs| >= 2
    requires forall i :: 0 <= i < |vs| ==> ',' !in vs[i]
    ensures JavaSplit(Join(vs, ", "), ',') == [vs[0]] + Padded(vs[1..])
  {
    var pieces := [vs[0]] + Padded(vs[1..]);
    JoinAsPieces(vs);
    CommaInJoin(vs);
    forall i | 0 <= i < |pieces| ensures ',' !in pieces[i] {
      if i > 0 { PaddedAt(vs[1..], i - 1); }
    }
    SplitAllJoin(pieces, ',');
    PaddedAt(vs[1..], |vs| - 2);
    assert pieces[|pieces| - 1] != "";
  }

  /** Trimming the padded pieces gives back the trimmed values. */
  lemma TrimPieces(vs: seq<string>)
    requires |vs| >= 1
    requires forall i :: 0 <= i < |vs| ==> IsTrimmed(vs[i])
    ensures TrimAll([vs[0]] + Padded(vs[1..])) == vs
  {
    var pieces := [vs[0]] + Padded(vs[1..]);
    var r := TrimAll(pieces);
    assert |r| == |vs|;
    forall i | 0 <= i < |vs| ensures r[i] == vs[i] {
      assert r[i] == Trim(pieces[i]);
      if i == 0 {
        TrimmedIsFixed(vs[0]);
      } else {
        PaddedAt(vs[1..], i - 1);
        assert pieces[i] == " " + vs[i];
        TrimPadded(" ", vs[i]);
      }
    }
  }

  lemma ValuesOfTrimmed(v: string)
    requires IsTrimmed(v) && ',' !in v
    ensures Values(v) == [v]
  {
    ValuesOfOne(v);
    TrimmedIsFixed(v);
  }

  lemma ValuesOfLongJoin(vs: seq<string>)
    requires |vs| >= 2
    requires forall i :: 0 <= i < |vs| ==> IsTrimmed(vs[i]) && ',' !in vs[i]
    ensures Values(Join(vs, ", ")) == vs
  {
    var pieces := [vs[0]] + Padded(vs[1..]);
    SplitJoinedValues(vs);
    assert Values(Join(vs, ", ")) == TrimAll(pieces);
    TrimPieces(vs);
  }

  /** Values inverts a ", " join of trimmed, comma-free values. */
  lemma ValuesOfJoin(vs: seq<string>)
    requires |vs| >= 1
    requires forall i :: 0 <= i < |vs| ==> IsTrimmed(vs[i]) && ',' !in vs[i]
    ensures Values(Join(vs, ", ")) == vs
  {
    if |vs| >= 2 {
      ValuesOfLongJoin(vs);
    } else {
      var v := vs[0];
      assert vs == [v];
      assert Join([v], ", ") == v;
      ValuesOfTrimmed(v);
    }
  }

  lemma {:induction false} PaddedAt(vs: seq<string>, i: int)
    requires 0 <= i < |vs|
    ensures Padded(vs)[i] == " " + vs[i]
  {
    if i > 0 {
      PaddedAt(vs[1..], i - 1);
    }
  }

  /** A single value comes back as itself. */
  lemma ValuesExampleSingle()
    ensures Values("helloValue") == ["helloValue"]
  {
    ValuesOfTrimmed("helloValue");
  }

  /** The blank after a comma is trimmed away. */
  lemma ValuesExamplePair()
    ensures Values("value0, value1") == ["value0", "value1"]
  {
    var vs := ["value0", "value1"];
    assert Join(vs, ", ") == "value0, value1";
    ValuesOfJoin(vs);
  }

  // ---------------------------------------------------------------------
  // parseCommandLine
  // ---------------------------------------------------------------------

  /**
   * The instruction parseCommandLine returns: a null writer or argument array
   * throws NullPointerException, a malformed line gives null (Null), and
   * otherwise the path is the first non-option token after the command word,
   * --delete wins over --edit, and an edit takes its values from the next
   * non-option token.
   */
  function Parsed(outIsNull: bool, args: Option<seq<string>>, options: OptionSet): (r: Ret<Instruction>)
    ensures r.Throw? <==> outIsNull || args.None?
    ensures r.Throw? ==> r.e == NullPointerException
    ensures r.Value? ==> options.Options? && |options.nonOptions| >= 2 && r.value.path == options.nonOptions[1]
    ensures r.Value? && r.value.op == DELETE <==>
      !r.Throw? && options.Options? && |options.nonOptions| >= 2 && options.delete.Some?
    ensures r.Value? && r.value.op == DELETE ==>
      r.value.propertyName == options.delete.value && r.value.values.None?
    ensures r.Value? && r.value.op == EDIT <==>
      !r.Throw? && options.Options? && |options.nonOptions| >= 3 && options.delete.None? && options.edit.Some?
    ensures r.Value? && r.value.op == EDIT ==>
      r.value.propertyName == options.edit.value && r.value.values == Some(Values(options.nonOptions[2]))
  {
    if outIsNull || args.None? then Throw(NullPointerException)
    else match options
      case OptionError(_) => Null
      case Options(edit, delete, nonOptions) =>
        if |nonOptions| < 2 then Null
        else if delete.Some? then Value(Instruction(DELETE, nonOptions[1], delete.value, None))
        else if edit.Some? && |nonOptions| >= 3 then
          Value(Instruction(EDIT, nonOptions[1], edit.value, Some(Values(nonOptions[2]))))
        else Null
  }

  /** The lines parseCommandLine prints on a non-null writer: the reason and the usage banner on an error. */
  function Printed(options: OptionSet): seq<string>
  {
    match options
    case OptionError(m) => [ParseError + m, Usage]
    case Options(edit, delete, nonOptions) =>
      if |nonOptions| < 2 then [MissingPath, Usage]
      else if delete.Some? then []
      else if edit.Some? && |nonOptions| >= 3 then []
      else if edit.Some? then [MissingValues, Usage]
      else [MissingOperation, Usage]
  }

  /** A null result is always explained on the writer, and a parsed instruction prints nothing. */
  lemma ErrorsAreReported(args: Option<seq<string>>, options: OptionSet)
    requires args.Some?
    ensures Parsed(false, args, options).Null? <==> Printed(options) != []
    ensures Parsed(false, args, options).Null? ==> Printed(options)[|Printed(options)| - 1] == Usage
  {
  }

  /** printHelp. */
  method PrintHelp(out: Writer)
    modifies out
    ensures out.lines == old(out.lines) + [Usage]
  {
    out.Println(Usage);
  }

  /** UpCommand.parseCommandLine. */
  method ParseCommandLine(out: Writer?, args: Option<seq<string>>, options: OptionSet) returns (r: Ret<Instruction>)
    modifies out
    ensures r == Parsed(out == null, args, options)
    ensures out != null && args.Some? ==> out.lines == old(out.lines) + Printed(options)
    ensures out != null && args.None? ==> out.lines == old(out.lines)
  {
    if out == null || args.None? {
      return Throw(NullPointerException);
    }
    if options.OptionError? {
      out.Println(ParseError + options.message);
      PrintHelp(out);
      return Null;
    }
    var nonOptions := options.nonOptions;
    if |nonOptions| > 0 {
      // the command word
      nonOptions := nonOptions[1..];
    }
    if |nonOptions| == 0 {
      out.Println(MissingPath);
      PrintHelp(out);
      return Null;
    }
    var p := nonOptions[0];
    nonOptions := nonOptions[1..];
    if options.delete.Some? {
      r := Value(Instruction(DELETE, p, options.delete.value, None));
    } else if options.edit.Some? {
      if |nonOptions| == 0 {
        out.Println(MissingValues);
        PrintHelp(out);
        return Null;
      }
      r := Value(Instruction(EDIT, p, options.edit.value, Some(Values(nonOptions[0]))));
    } else {
      out.Println(MissingOperation);
      PrintHelp(out);
      r := Null;
    }
  }

  // ---------------------------------------------------------------------
  // execute
  // ---------------------------------------------------------------------

  /** Exactly one value makes a single-valued property; any other count a multi-valued one, in order. */
  function PropertyValue(values: seq<string>): (v: Value)
    ensures v.Single? <==> |values| == 1
    ensures v.Single? ==> v.s == values[0]
    ensures v.Multi? ==> v.vs == values
  {
    if |values| == 1 then Single(values[0]) else Multi(values)
  }

  /** What the instruction does to the session's tree. */
  function Apply(root: Node, instr: Instruction): Result<Node>
  {
    match instr.op
    case DELETE => RemovePropertyAt(root, instr.path, instr.propertyName)
    case EDIT =>
      var values := if instr.values.Some? then instr.values.value else [];
      SetPropertyAt(root, instr.path, instr.propertyName, PropertyValue(values))
  }

  /** After a successful edit the node reads back the value; after a delete the property is gone. */
  lemma ApplyThenGet(root: Node, instr: Instruction)
    requires Apply(root, instr).Ok?
    ensures GetNodeAt(Apply(root, instr).value, instr.path).Ok?
    ensures instr.op == DELETE ==>
      GetProperty(GetNodeAt(Apply(root, instr).value, instr.path).value.props, instr.propertyName).None?
    ensures instr.op == EDIT && instr.values.Some? ==>
      GetProperty(GetNodeAt(Apply(root, instr).value, instr.path).value.props, instr.propertyName)
        == Some(PropertyValue(instr.values.value))
  {
    match instr.op
    case DELETE => RemovePropertyThenGet(root, instr.path, instr.propertyName);
    case EDIT =>
      var values := if instr.values.Some? then instr.values.value else [];
      SetPropertyThenGet(root, instr.path, instr.propertyName, PropertyValue(values));
  }

  /**
   * UpCommand.execute. `repo` is what Repository.getRepo() hands out (null
   * when the repository could not be built). A parse failure returns 1 having
   * touched nothing; otherwise a session is opened, the instruction is applied
   * and saved, or its error printed and 1 returned, and the session is always
   * logged out.
   */
  method Execute(out: Writer?, args: Option<seq<string>>, options: OptionSet, repo: ContentRepository?)
    returns (c: Completion)
    modifies out, repo
    ensures var p := Parsed(out == null, args, options);
      && (p.Throw? ==> c == Abrupt(p.e))
      && (p.Null? ==> c == Normal(1) && out.lines == old(out.lines) + Printed(options))
      && (!p.Value? ==> repo == null || (repo.root == old(repo.root) && repo.logins == old(repo.logins) && repo.logouts == old(repo.logouts)))
      && (p.Value? && repo == null ==> c == Abrupt(NullPointerException))
      && (p.Throw? || (p.Value? && repo == null) ==> out == null || out.lines == old(out.lines))
      && (p.Value? && repo != null ==>
            var r := Apply(old(repo.root), p.value);
            && c == Normal(if r.Ok? then 0 else 1)
            && repo.root == After(old(repo.root), r)
            && repo.logins == old(repo.logins) + 1 && repo.logouts == old(repo.logouts) + 1
            && out.lines == old(out.lines) + Printed(options) + (if r.Ok? then [] else [UpdateError + r.message]))
  {
    var instr := ParseCommandLine(out, args, options);
    if instr.Throw? {
      return Abrupt(instr.e);
    }
    if instr.Null? {
      return Normal(1);
    }
    var i := instr.value;
    if repo == null {
      return Abrupt(NullPointerException);
    }
    var session := repo.Login();
    var st: Status;
    match i.op {
      case DELETE =>
        st := session.RemoveProperty(i.path, i.propertyName);
      case EDIT =>
        var values := if i.values.Some? then i.values.value else [];
        if |values| == 1 {
          st := session.SetProperty(i.path, i.propertyName, Single(values[0]));
        } else {
          st := session.SetProperty(i.path, i.propertyName, Multi(values));
        }
    }
    if st.Done? {
      session.Save();
      c := Normal(0);
    } else {
      out.Println(UpdateError + st.message);
      c := Normal(1);
    }
    // finally
    session.Logout();
  }
}
