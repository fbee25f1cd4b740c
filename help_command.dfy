/**
 * The help command: one line per verb, "name - [description]", in the order
 * of the upper-cased names.
 */
module HelpCommand {
  import opened Java
  import opened Commands

  /**
   * What each handler's getDescription returns. ExitCommand is not part of
   * this model, so its description is a parameter.
   */
  function Description(v: Verb, exitDescription: string): string
  {
    match v
    case EXIT => exitDescription
    case LS => "list the nodes for the provided path"
    case HELP => "Print the help screen"
    case CAT => "Print the content of a node"
    case ADD => "Add a new node"
    case RM => "remove a node and all the subnodes"
    case UP => "Update a node"
    case COLOUR => "Search for all the nodes with a specific `colour`"
  }

  /**
   * What each handler's isExit returns: false for all the handlers of this
   * model, so only `exit` can end the shell; ExitCommand's own answer is a
   * parameter.
   */
  function IsExit(v: Verb, exitIsExit: bool): (r: bool)
    ensures r <==> v == EXIT && exitIsExit
    ensures v == HELP ==> !r
  {
    match v
    case EXIT => exitIsExit
    case LS => false
    case HELP => false
    case CAT => false
    case ADD => false
    case RM => false
    case UP => false
    case COLOUR => false
  }

  function Line(v: Verb, exitDescription: string): string
  {
    Name(v) + " - [" + Description(v, exitDescription) + "]"
  }

  /** Strictly ascending by the order of the keys' compareTo. */
  predicate SortedBy<T>(s: seq<T>, key: T -> string)
  {
    forall i, j :: 0 <= i < j < |s| ==> CompareTo(key(s[i]), key(s[j])) < 0
  }

  /** Insertion into an ascending sequence; an element with an equal key goes after. */
  function InsertBy<T>(v: T, s: seq<T>, key: T -> string): seq<T>
  {
    if s == [] then [v]
    else if CompareTo(key(v), key(s[0])) < 0 then [v] + s
    else [s[0]] + InsertBy(v, s[1..], key)
  }

  /** A stable sort of a stream by the compareTo of a key. */
  function SortBy<T>(vs: seq<T>, key: T -> string): seq<T>
  {
    if vs == [] then [] else InsertBy(vs[|vs| - 1], SortBy(vs[..|vs| - 1], key), key)
  }

  /** An element below everything in an ascending sequence can go in front of it. */
  lemma SortedCons<T>(x: T, t: seq<T>, key: T -> string)
    requires SortedBy(t, key)
    requires forall j :: 0 <= j < |t| ==> CompareTo(key(x), key(t[j])) < 0
    ensures SortedBy([x] + t, key)
  {
    var u := [x] + t;
    forall i, j | 0 <= i < j < |u| ensures CompareTo(key(u[i]), key(u[j])) < 0 {
      assert u[j] == t[j - 1];
      if i > 0 {
        assert u[i] == t[i - 1];
      }
    }
  }

  /** The tail of an ascending sequence is ascending and lies above its head. */
  lemma SortedTail<T>(s: seq<T>, key: T -> string)
    requires SortedBy(s, key) && s != []
    ensures SortedBy(s[1..], key)
    ensures forall k :: 0 <= k < |s| - 1 ==> CompareTo(key(s[0]), key(s[1..][k])) < 0
  {
    var tail := s[1..];
    forall i, j | 0 <= i < j < |tail| ensures CompareTo(key(tail[i]), key(tail[j])) < 0 {
      assert tail[i] == s[i + 1] && tail[j] == s[j + 1];
    }
    forall k | 0 <= k < |tail| ensures CompareTo(key(s[0]), key(tail[k])) < 0 {
      assert tail[k] == s[k + 1];
    }
  }

  /** What lies below v and every element of tail lies below all of tail with v added. */
  lemma BelowAll<T>(h: T, v: T, tail: seq<T>, t: seq<T>, key: T -> string)
    requires multiset(t) == multiset(tail) + multiset{v}
    requires CompareTo(key(h), key(v)) < 0
    requires forall k :: 0 <= k < |tail| ==> CompareTo(key(h), key(tail[k])) < 0
    ensures forall j :: 0 <= j < |t| ==> CompareTo(key(h), key(t[j])) < 0
  {
    forall j | 0 <= j < |t| ensures CompareTo(key(h), key(t[j])) < 0 {
      assert t[j] in multiset(t);
      if t[j] != v {
        assert t[j] in multiset(tail);
        var k :| 0 <= k < |tail| && tail[k] == t[j];
      }
    }
  }

  lemma {:induction false} InsertSorted<T>(v: T, s: seq<T>, key: T -> string)
    requires SortedBy(s, key)
    requires forall i :: 0 <= i < |s| ==> key(s[i]) != key(v)
    ensures SortedBy(InsertBy(v, s, key), key)
    ensures multiset(InsertBy(v, s, key)) == multiset(s) + multiset{v}
  {
    if s == [] {
    } else if CompareTo(key(v), key(s[0])) < 0 {
      forall j | 0 <= j < |s| ensures CompareTo(key(v), key(s[j])) < 0 {
        if j > 0 {
          CompareToTransitive(key(v), key(s[0]), key(s[j]));
        }
      }
      SortedCons(v, s, key);
    } else {
      var h := s[0];
      var tail := s[1..];
      assert s == [h] + tail;
      CompareToZeroIff(key(v), key(h));
      CompareToAntisymmetric(key(v), key(h));
      SortedTail(s, key);
      assert forall i :: 0 <= i < |tail| ==> key(tail[i]) != key(v) by {
        forall i | 0 <= i < |tail| ensures key(tail[i]) != key(v) {
          assert tail[i] == s[i + 1];
        }
      }
      InsertSorted(v, tail, key);
      var t := InsertBy(v, tail, key);
      BelowAll(h, v, tail, t, key);
      SortedCons(h, t, key);
      assert InsertBy(v, s, key) == [h] + t;
    }
  }

  /** With distinct keys the sort orders its input and keeps every element once per occurrence. */
  lemma {:induction false} SortSortsAndPermutes<T>(vs: seq<T>, key: T -> string)
    requires forall i, j :: 0 <= i < j < |vs| ==> key(vs[i]) != key(vs[j])
    ensures SortedBy(SortBy(vs, key), key)
    ensures multiset(SortBy(vs, key)) == multiset(vs)
  {
    if vs != [] {
      var init := vs[..|vs| - 1];
      var last := vs[|vs| - 1];
      SortSortsAndPermutes(init, key);
      var sorted := SortBy(init, key);
      forall i | 0 <= i < |sorted| ensures key(sorted[i]) != key(last) {
        assert sorted[i] in multiset(init);
        var k :| 0 <= k < |init| && init[k] == sorted[i];
      }
      InsertSorted(last, sorted, key);
      assert vs == init + [last];
    }
  }

  /** The head of an ascending sequence comes before every later element. */
  lemma HeadLeast<T>(s: seq<T>, key: T -> string, i: int)
    requires SortedBy(s, key) && 0 <= i < |s|
    ensures i == 0 || CompareTo(key(s[0]), key(s[i])) < 0
  {
  }

  /** Two ascending sequences with the same members start alike. */
  lemma SortedSameHead<T>(a: seq<T>, b: seq<T>, key: T -> string)
    requires SortedBy(a, key) && SortedBy(b, key) && a != []
    requires forall x :: x in a <==> x in b
    ensures b != [] && a[0] == b[0]
  {
    assert a[0] in b;
    assert b[0] in a;
    var k :| 0 <= k < |b| && b[k] == a[0];
    var m :| 0 <= m < |a| && a[m] == b[0];
    CompareToAntisymmetric(key(a[0]), key(b[0]));
    HeadLeast(b, key, k);
    HeadLeast(a, key, m);
  }

  /** The tail of an ascending sequence holds every member but the head. */
  lemma TailMembers<T>(s: seq<T>, key: T -> string, x: T)
    requires SortedBy(s, key) && s != []
    ensures x in s[1..] <==> x in s && x != s[0]
  {
    if x in s[1..] {
      var k :| 0 <= k < |s| - 1 && s[1..][k] == x;
      assert s[k + 1] == x;
      CompareToZeroIff(key(x), key(x));
    }
    if x in s && x != s[0] {
      var k :| 0 <= k < |s| && s[k] == x;
      assert s[1..][k - 1] == x;
    }
  }

  /** Two ascending sequences with the same members are equal. */
  lemma {:induction false} SortedUnique<T>(a: seq<T>, b: seq<T>, key: T -> string)
    requires SortedBy(a, key) && SortedBy(b, key)
    requires forall x :: x in a <==> x in b
    ensures a == b
  {
    assert b != [] ==> b[0] in a;
    if a != [] {
      SortedSameHead(a, b, key);
      forall x ensures x in a[1..] <==> x in b[1..] {
        TailMembers(a, key, x);
        TailMembers(b, key, x);
      }
      assert SortedBy(a[1..], key) && SortedBy(b[1..], key);
      SortedUnique(a[1..], b[1..], key);
      assert a == [a[0]] + a[1..] && b == [b[0]] + b[1..];
    }
  }

  /** The commands as the help screen lists them. */
  function Listed(): (r: seq<Verb>)
    ensures SortedBy(r, Key) && multiset(r) == multiset(Values)
  {
    forall i, j | 0 <= i < j < |Values| ensures Key(Values[i]) != Key(Values[j]) {
      KeyInjective(Values[i], Values[j]);
    }
    SortSortsAndPermutes(Values, Key);
    SortBy(Values, Key)
  }

  /** Ascending neighbours make an ascending sequence. */
  lemma {:induction false} SortedByAdjacent<T>(s: seq<T>, key: T -> string)
    requires forall i :: 0 <= i < |s| - 1 ==> CompareTo(key(s[i]), key(s[i + 1])) < 0
    ensures SortedBy(s, key)
  {
    if |s| > 1 {
      SortedByAdjacent(s[1..], key);
      forall j | 1 < j < |s| ensures CompareTo(key(s[0]), key(s[j])) < 0 {
        assert s[1..][j - 1] == s[j];
        CompareToTransitive(key(s[0]), key(s[1]), key(s[j]));
      }
    }
  }

  /** The commands in alphabetical order of their upper-cased names. */
  const Alphabetical: seq<Verb> := [ADD, CAT, COLOUR, EXIT, HELP, LS, RM, UP]

  lemma AlphabeticalFirstHalf()
    ensures CompareTo(Key(ADD), Key(CAT)) < 0 && CompareTo(Key(CAT), Key(COLOUR)) < 0
    ensures CompareTo(Key(COLOUR), Key(EXIT)) < 0 && CompareTo(Key(EXIT), Key(HELP)) < 0
  {
  }

  lemma AlphabeticalSecondHalf()
    ensures CompareTo(Key(HELP), Key(LS)) < 0 && CompareTo(Key(LS), Key(RM)) < 0
    ensures CompareTo(Key(RM), Key(UP)) < 0
  {
  }

  lemma AlphabeticalSorted()
    ensures SortedBy(Alphabetical, Key)
  {
    AlphabeticalFirstHalf();
    AlphabeticalSecondHalf();
    SortedByAdjacent(Alphabetical, Key);
  }

  /** Both the declared and the alphabetical listing hold every command. */
  lemma AlphabeticalHoldsAll()
    ensures forall v: Verb :: v in Alphabetical && v in Values
  {
    forall v: Verb ensures v in Alphabetical && v in Values {
      match v
      case ADD => assert Alphabetical[0] == v && Values[4] == v;
      case CAT => assert Alphabetical[1] == v && Values[3] == v;
      case COLOUR => assert Alphabetical[2] == v && Values[7] == v;
      case EXIT => assert Alphabetical[3] == v && Values[0] == v;
      case HELP => assert Alphabetical[4] == v && Values[2] == v;
      case LS => assert Alphabetical[5] == v && Values[1] == v;
      case RM => assert Alphabetical[6] == v && Values[5] == v;
      case UP => assert Alphabetical[7] == v && Values[6] == v;
    }
  }

  /** Any ascending arrangement of all the commands is the alphabetical one. */
  lemma OnlyArrangement(vs: seq<Verb>)
    requires SortedBy(vs, Key) && multiset(vs) == multiset(Values)
    ensures vs == Alphabetical
  {
    AlphabeticalSorted();
    AlphabeticalHoldsAll();
    forall x ensures x in vs <==> x in Alphabetical {
      assert x in vs <==> x in multiset(vs);
    }
    SortedUnique(vs, Alphabetical, Key);
  }

  /** The order in which the help screen lists the commands. */
  lemma HelpOrder()
    ensures Listed() == Alphabetical
  {
    OnlyArrangement(Listed());
  }

  /** The lines the forEach prints: one line per command, in order. */
  function Lines(vs: seq<Verb>, exitDescription: string): (r: seq<string>)
    ensures |r| == |vs|
  {
    if vs == [] then [] else [Line(vs[0], exitDescription)] + Lines(vs[1..], exitDescription)
  }

  lemma {:induction false} LinesSnoc(vs: seq<Verb>, v: Verb, exitDescription: string)
    ensures Lines(vs + [v], exitDescription) == Lines(vs, exitDescription) + [Line(v, exitDescription)]
  {
    if vs != [] {
      assert (vs + [v])[1..] == vs[1..] + [v];
      LinesSnoc(vs[1..], v, exitDescription);
      AppendAssoc([Line(vs[0], exitDescription)], Lines(vs[1..], exitDescription), [Line(v, exitDescription)]);
    }
  }

  /** Every line of the forEach is the line of the command at the same place. */
  lemma {:induction false} LinesAt(vs: seq<Verb>, exitDescription: string, i: int)
    requires 0 <= i < |vs|
    ensures Lines(vs, exitDescription)[i] == Line(vs[i], exitDescription)
  {
    if i > 0 {
      LinesAt(vs[1..], exitDescription, i - 1);
      assert Lines(vs, exitDescription)[i] == Lines(vs[1..], exitDescription)[i - 1];
    }
  }

  /** The help screen: one line per command, in the comparator's order. */
  function Screen(exitDescription: string): (r: seq<string>)
    ensures |r| == |Values|
  {
    var listed := Listed();
    assert |listed| == |multiset(listed)| == |Values|;
    Lines(listed, exitDescription)
  }

  /** The help screen lists, in alphabetical order, each command's name with its description. */
  lemma ScreenContents(exitDescription: string, i: int)
    requires 0 <= i < |Alphabetical|
    ensures Screen(exitDescription)[i] == Name(Alphabetical[i]) + " - [" + Description(Alphabetical[i], exitDescription) + "]"
  {
    HelpOrder();
    LinesAt(Listed(), exitDescription, i);
  }

  /** The forEach of execute. */
  method PrintAll(out: Writer, vs: seq<Verb>, exitDescription: string)
    modifies out
    ensures out.lines == old(out.lines) + Lines(vs, exitDescription)
  {
    for i := 0 to |vs|
      invariant out.lines == old(out.lines) + Lines(vs[..i], exitDescription)
    {
      assert vs[..i + 1] == vs[..i] + [vs[i]];
      ghost var printed := Lines(vs[..i], exitDescription);
      out.Println(Line(vs[i], exitDescription));
      LinesSnoc(vs[..i], vs[i], exitDescription);
      AppendAssoc(old(out.lines), printed, [Line(vs[i], exitDescription)]);
    }
    assert vs[..|vs|] == vs;
  }

  /**
   * HelpCommand.execute: prints the help screen whatever the arguments, and
   * returns 0.
   */
  method Execute(out: Writer, args: seq<string>, exitDescription: string) returns (code: int)
    modifies out
    ensures out.lines == old(out.lines) + Screen(exitDescription)
    ensures code == 0
  {
    PrintAll(out, Listed(), exitDescription);
    code := 0;
  }
}
