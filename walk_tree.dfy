/**
 * WalkTree.walk: a pre-order dump of a subtree to the log. Each node gives a
 * line with its name behind a prefix of one bar per path segment, then one
 * line per property behind the same prefix, then the walks of its children.
 * A child whose walk fails is logged as an error, after whatever it logged
 * before failing, and its siblings are still walked.
 */
module WalkTree {
  import opened Java
  import opened JcrTree

  /** How a call of walk ends. */
  datatype Outcome = Returned | Threw(e: Exception)

  /** What LOG.error writes when a child's walk fails. */
  const ChildError: string := "Error dumping nodes"

  /** The indentation: n bars. */
  function Bars(n: nat): (r: string)
    ensures |r| == n && forall i :: 0 <= i < n ==> r[i] == '|'
  {
    if n == 0 then "" else Bars(n - 1) + "|"
  }

  /** The loop building the depth prefix one bar at a time. */
  method BuildBars(depth: nat) returns (dt: string)
    ensures dt == Bars(depth)
  {
    dt := "";
    for i := 0 to depth
      invariant dt == Bars(i)
    {
      dt := dt + "|";
    }
  }

  /** The prefix of a node's property lines: nothing for the root. */
  function Prefix(p: string): string
  {
    if Depth(p) == 0 then "" else Bars(Depth(p))
  }

  /** The line naming a node: "<path> <name>" for the root, "<bars>-> <name>" below it. */
  function Header(p: string, name: string): string
  {
    if Depth(p) == 0 then p + " " + name else Bars(Depth(p)) + "-> " + name
  }

  /** The root's path is "/", with no prefix and the line "/ name". */
  lemma RootHeader(name: string)
    ensures PathOf([]) == "/" && Prefix("/") == "" && Header("/", name) == "/ " + name
  {
    var r := "/" + " " + name;
    assert |r| == |"/ " + name|;
    forall i | 0 <= i < |r| ensures r[i] == ("/ " + name)[i] {
      if i >= 2 {
        assert r[i] == name[i - 2];
      }
    }
  }

  /** On the path of a node, the prefix has exactly one bar per segment and the root's line is "/ name". */
  lemma HeaderShape(segs: seq<string>, name: string)
    requires forall i :: 0 <= i < |segs| ==> ValidName(segs[i])
    ensures Prefix(PathOf(segs)) == Bars(|segs|)
    ensures segs == [] ==> Header(PathOf(segs), name) == "/ " + name
    ensures segs != [] ==> Header(PathOf(segs), name) == Bars(|segs|) + "-> " + name
  {
    if segs == [] {
      RootHeader(name);
    } else {
      DepthOfPath(segs);
    }
  }

  /**
   * A property line: prefix, "- ", name, ": ", value. SLF4J formats a
   * multi-valued property's Value[] element by element, "[v1, v2]", which is
   * how RenderValue shows it.
   */
  function PropertyLine(prefix: string, p: Property): string
  {
    prefix + "- " + p.name + ": " + RenderValue(p.value)
  }

  function PropertyLines(prefix: string, props: seq<Property>): (r: seq<string>)
    ensures |r| == |props|
  {
    if props == [] then [] else [PropertyLine(prefix, props[0])] + PropertyLines(prefix, props[1..])
  }

  lemma {:induction false} PropertyLinesAt(prefix: string, props: seq<Property>, k: int)
    requires 0 <= k < |props|
    ensures PropertyLines(prefix, props)[k] == prefix + "- " + props[k].name + ": " + RenderValue(props[k].value)
    ensures props[k].value.Multi? ==>
      PropertyLines(prefix, props)[k] == prefix + "- " + props[k].name + ": [" + Join(props[k].value.vs, ", ") + "]"
  {
    if k > 0 {
      PropertyLinesAt(prefix, props[1..], k - 1);
    }
  }

  lemma {:induction false} PropertyLinesSnoc(prefix: string, props: seq<Property>, p: Property)
    ensures PropertyLines(prefix, props + [p]) == PropertyLines(prefix, props) + [PropertyLine(prefix, p)]
  {
    if props != [] {
      assert (props + [p])[1..] == props[1..] + [p];
      PropertyLinesSnoc(prefix, props[1..], p);
    }
  }

  /**
   * Where reading a node throws a RepositoryException: in getPath or
   * getName, before its line is logged; in getProperties, after its line;
   * in getNodes, after its line and its property lines.
   */
  datatype Fault = OnRead | OnProperties | OnChildren

  /** What walk logs on a node before the fault throws. */
  function FaultLines(n: Node, segs: seq<string>, f: Fault): (r: seq<string>)
    ensures f == OnRead <==> r == []
  {
    var p := PathOf(segs);
    match f
    case OnRead => []
    case OnProperties => [Header(p, n.name)]
    case OnChildren => [Header(p, n.name)] + PropertyLines(Prefix(p), n.props)
  }

  /**
   * The log of walk on node n reached by segs, when n itself reads without a
   * fault. `faults` maps the paths of the nodes that fail to where they fail.
   */
  function WalkLines(n: Node, segs: seq<string>, faults: map<string, Fault>): seq<string>
    decreases n, 0
  {
    var p := PathOf(segs);
    [Header(p, n.name)] + PropertyLines(Prefix(p), n.props) + ChildrenLines(n.children, segs, faults)
  }

  /** What one child adds: its walk, or what it logged before failing and then the error line. */
  function ChildLines(c: Node, segs: seq<string>, faults: map<string, Fault>): seq<string>
    decreases c, 1
  {
    var q := PathOf(segs + [c.name]);
    if q in faults then FaultLines(c, segs + [c.name], faults[q]) + [ChildError]
    else WalkLines(c, segs + [c.name], faults)
  }

  function ChildrenLines(cs: seq<Node>, segs: seq<string>, faults: map<string, Fault>): seq<string>
    decreases cs
  {
    if cs == [] then [] else ChildLines(cs[0], segs, faults) + ChildrenLines(cs[1..], segs, faults)
  }

  /** A child's part alone: its walk when it reads without a fault, otherwise its lines up to the fault and the error line. */
  lemma ChildPart(c: Node, segs: seq<string>, faults: map<string, Fault>)
    ensures ChildrenLines([c], segs, faults) == ChildLines(c, segs, faults)
    ensures PathOf(segs + [c.name]) !in faults ==> ChildLines(c, segs, faults) == WalkLines(c, segs + [c.name], faults)
    ensures PathOf(segs + [c.name]) in faults ==>
      ChildLines(c, segs, faults) == FaultLines(c, segs + [c.name], faults[PathOf(segs + [c.name])]) + [ChildError]
  {
    assert [c][1..] == [];
  }

  lemma {:induction false} ChildrenLinesAppend(a: seq<Node>, b: seq<Node>, segs: seq<string>, faults: map<string, Fault>)
    ensures ChildrenLines(a + b, segs, faults) == ChildrenLines(a, segs, faults) + ChildrenLines(b, segs, faults)
  {
    if a == [] {
      assert a + b == b;
    } else {
      assert (a + b)[0] == a[0] && (a + b)[1..] == a[1..] + b;
      ChildrenLinesAppend(a[1..], b, segs, faults);
      AppendAssoc(ChildLines(a[0], segs, faults), ChildrenLines(a[1..], segs, faults), ChildrenLines(b, segs, faults));
    }
  }

  /**
   * Error isolation: the children's log is the log of the children before k,
   * then child k's own part, then the log of those after it; a failing
   * child's part is what it logged before the fault, then the error line.
   */
  lemma ChildFailureIsolated(cs: seq<Node>, k: int, segs: seq<string>, faults: map<string, Fault>)
    requires 0 <= k < |cs|
    ensures ChildrenLines(cs, segs, faults)
         == ChildrenLines(cs[..k], segs, faults) + ChildLines(cs[k], segs, faults) + ChildrenLines(cs[k + 1..], segs, faults)
    ensures var q := PathOf(segs + [cs[k].name]);
      q in faults ==> ChildLines(cs[k], segs, faults) == FaultLines(cs[k], segs + [cs[k].name], faults[q]) + [ChildError]
    ensures var q := PathOf(segs + [cs[k].name]);
      q in faults && faults[q] == OnRead ==> ChildLines(cs[k], segs, faults) == [ChildError]
  {
    var before, rest := cs[..k], cs[k + 1..];
    var tail := [cs[k]] + rest;
    assert cs == before + tail;
    ChildrenLinesAppend(before, tail, segs, faults);
    assert tail[0] == cs[k] && tail[1..] == rest;
    assert ChildrenLines(tail, segs, faults) == ChildLines(cs[k], segs, faults) + ChildrenLines(rest, segs, faults);
    AppendAssoc(ChildrenLines(before, segs, faults), ChildLines(cs[k], segs, faults), ChildrenLines(rest, segs, faults));
  }

  lemma {:induction false} ChildrenLinesContain(cs: seq<Node>, k: nat, segs: seq<string>, faults: map<string, Fault>, line: string)
    requires k < |cs| && line in ChildLines(cs[k], segs, faults)
    ensures line in ChildrenLines(cs, segs, faults)
    decreases k
  {
    if k > 0 {
      ChildrenLinesContain(cs[1..], k - 1, segs, faults, line);
    }
  }

  /** When no node fails, the walk of n names every node below it. */
  lemma {:induction false} WalkNamesEveryNodeFrom(n: Node, pre: seq<string>, segs: seq<string>)
    requires Lookup(n, segs).Some?
    ensures Header(PathOf(pre + segs), Lookup(n, segs).value.name) in WalkLines(n, pre, map[])
    decreases |segs|
  {
    if segs == [] {
      assert pre + segs == pre;
    } else {
      var k := ChildIndex(n.children, segs[0]).value;
      var child := n.children[k];
      assert pre + segs == (pre + [child.name]) + segs[1..];
      WalkNamesEveryNodeFrom(child, pre + [child.name], segs[1..]);
      ChildrenLinesContain(n.children, k, pre, map[], Header(PathOf(pre + segs), Lookup(n, segs).value.name));
    }
  }

  /** When no node fails, the walk from the root has a line for every node of the tree. */
  lemma WalkNamesEveryNode(root: Node, segs: seq<string>)
    requires Lookup(root, segs).Some?
    ensures Header(PathOf(segs), Lookup(root, segs).value.name) in WalkLines(root, [], map[])
  {
    WalkNamesEveryNodeFrom(root, [], segs);
    assert [] + segs == segs;
  }

  /**
   * The walk of a node opens with its own line, then its property lines,
   * each carrying the node's prefix, before anything about its children.
   */
  lemma WalkIsPreOrder(n: Node, segs: seq<string>, faults: map<string, Fault>, k: int)
    requires forall i :: 0 <= i < |segs| ==> ValidName(segs[i])
    requires 0 <= k < |n.props|
    ensures var w := WalkLines(n, segs, faults);
      |w| > |n.props|
      && w[0] == Header(PathOf(segs), n.name)
      && w[1 + k] == Bars(|segs|) + "- " + n.props[k].name + ": " + RenderValue(n.props[k].value)
  {
    HeaderShape(segs, n.name);
    PropertyLinesAt(Prefix(PathOf(segs)), n.props, k);
  }

  /** The node's own line; the prefix it returns is the one its properties reuse. */
  method LogHeader(log: Writer, p: string, name: string) returns (dt: string)
    modifies log
    ensures dt == Prefix(p)
    ensures log.lines == old(log.lines) + [Header(p, name)]
  {
    var depth := Depth(p);
    dt := "";
    if depth == 0 {
      log.Println(p + " " + name);
    } else {
      dt := BuildBars(depth);
      log.Println(dt + "-> " + name);
    }
  }

  /** The forEachRemaining over the properties. */
  method LogProperties(log: Writer, dt: string, props: seq<Property>)
    modifies log
    ensures log.lines == old(log.lines) + PropertyLines(dt, props)
  {
    for k := 0 to |props|
      invariant log.lines == old(log.lines) + PropertyLines(dt, props[..k])
    {
      var pp := props[k];
      log.Println(dt + "- " + pp.name + ": " + RenderValue(pp.value));
      PropertyLinesSnoc(dt, props[..k], pp);
      assert props[..k + 1] == props[..k] + [pp];
    }
    assert props[..|props|] == props;
  }

  /**
   * WalkTree.walk. A null node is rejected with a NullPointerException;
   * otherwise see WalkNode.
   */
  method Walk(log: Writer, node: Option<Node>, segs: seq<string>, faults: map<string, Fault>) returns (o: Outcome)
    modifies log
    ensures node.None? ==> o == Threw(NullPointerException) && log.lines == old(log.lines)
    ensures node.Some? && PathOf(segs) in faults ==>
      && o == Threw(RepositoryException(PathOf(segs)))
      && log.lines == old(log.lines) + FaultLines(node.value, segs, faults[PathOf(segs)])
    ensures node.Some? && PathOf(segs) !in faults ==>
      o == Returned && log.lines == old(log.lines) + WalkLines(node.value, segs, faults)
  {
    if node.None? {
      return Threw(NullPointerException);
    }
    o := WalkNode(log, node.value, segs, faults);
  }

  /**
   * walk on a node reached by segs: its line, its properties and its
   * children's walks are logged in turn; a fault of the node throws at its
   * point, keeping what was logged before it.
   */
  method WalkNode(log: Writer, n: Node, segs: seq<string>, faults: map<string, Fault>) returns (o: Outcome)
    modifies log
    ensures PathOf(segs) in faults ==>
      && o == Threw(RepositoryException(PathOf(segs)))
      && log.lines == old(log.lines) + FaultLines(n, segs, faults[PathOf(segs)])
    ensures PathOf(segs) !in faults ==>
      o == Returned && log.lines == old(log.lines) + WalkLines(n, segs, faults)
    decreases n, 1
  {
    var p := PathOf(segs);
    ghost var l0 := log.lines;
    ghost var header := [Header(p, n.name)];
    ghost var props := PropertyLines(Prefix(p), n.props);
    // getPath and getName
    if p in faults && faults[p] == OnRead {
      return Threw(RepositoryException(p));
    }
    var dt := LogHeader(log, p, n.name);
    // getProperties
    if p in faults && faults[p] == OnProperties {
      return Threw(RepositoryException(p));
    }
    LogProperties(log, dt, n.props);
    AppendAssoc(l0, header, props);
    // getNodes
    if p in faults {
      return Threw(RepositoryException(p));
    }
    WalkChildren(log, n, segs, faults);
    AppendAssoc(l0, header + props, ChildrenLines(n.children, segs, faults));
    o := Returned;
  }

  /** The forEachRemaining over the children: a child's RepositoryException is logged and the loop goes on. */
  method WalkChildren(log: Writer, n: Node, segs: seq<string>, faults: map<string, Fault>)
    modifies log
    ensures log.lines == old(log.lines) + ChildrenLines(n.children, segs, faults)
    decreases n, 0
  {
    for i := 0 to |n.children|
      invariant log.lines == old(log.lines) + ChildrenLines(n.children[..i], segs, faults)
    {
      var c := n.children[i];
      ghost var before := log.lines;
      var r := WalkNode(log, c, segs + [c.name], faults);
      if r.Threw? {
        log.Println(ChildError);
      }
      ChildPart(c, segs, faults);
      assert log.lines == before + ChildLines(c, segs, faults);
      ChildrenLinesAppend(n.children[..i], [c], segs, faults);
      AppendAssoc(old(log.lines), ChildrenLines(n.children[..i], segs, faults), ChildLines(c, segs, faults));
      assert n.children[..i + 1] == n.children[..i] + [c];
    }
    assert n.children[..|n.children|] == n.children;
  }
}
