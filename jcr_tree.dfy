/**
 * The content tree as the JCR API shows it to the shell: named nodes with an
 * ordered list of properties (string or string-array values) and an ordered
 * list of children, addressed by slash-separated paths. The storage engine
 * (Oak) is abstracted to these values and to the error outcomes of the
 * operations the commands call.
 */
module JcrTree {
  import opened Java

  datatype Value = Single(s: string) | Multi(vs: seq<string>)
  datatype Property = Property(name: string, value: Value)
  datatype Node = Node(name: string, props: seq<Property>, children: seq<Node>)

  /** A store operation's outcome; the message is that of the RepositoryException. */
  datatype Result<T> = Ok(value: T) | Err(message: string)

  const PrimaryType: string := "jcr:primaryType"
  const ColourProperty: string := "colour"

  // ---------------------------------------------------------------------
  // Paths
  // ---------------------------------------------------------------------

  /** A name that can stand as one path segment. */
  predicate ValidName(s: string)
  {
    s != "" && '/' !in s
  }

  /** The segments of a relative path, when none of them is empty. */
  function Segments(rel: string): Option<seq<string>>
  {
    var segs := SplitAll(rel, '/');
    if forall i :: 0 <= i < |segs| ==> segs[i] != "" then Some(segs) else None
  }

  /** The segments of an absolute path; "/" is the root. */
  function AbsoluteSegments(path: string): Option<seq<string>>
  {
    if path == "/" then Some([])
    else if |path| > 1 && path[0] == '/' then Segments(path[1..])
    else None
  }

  /** The absolute path of the node reached by these segments. */
  function PathOf(segs: seq<string>): string
  {
    "/" + Join(segs, "/")
  }

  /** The path of a child, as Node.getPath() gives it. */
  function ChildPath(parent: string, name: string): string
  {
    if parent == "/" then "/" + name else parent + "/" + name
  }

  function CountChar(s: string, c: char): nat
  {
    if s == [] then 0 else (if s[0] == c then 1 else 0) + CountChar(s[1..], c)
  }

  /** PathUtils.getDepth: the number of segments, 0 for the root. */
  function Depth(path: string): nat
  {
    if path == "" || path == "/" then 0
    else 1 + CountChar(if path[0] == '/' then path[1..] else path, '/')
  }

  lemma {:induction false} JoinSnoc(xs: seq<string>, y: string, sep: string)
    requires |xs| >= 1
    ensures Join(xs + [y], sep) == Join(xs, sep) + sep + y
  {
    if |xs| > 1 {
      assert (xs + [y])[1..] == xs[1..] + [y];
      JoinSnoc(xs[1..], y, sep);
    } else {
      assert (xs + [y])[1..] == [y];
    }
  }

  lemma {:induction false} CountCharJoin(segs: seq<string>, c: char)
    requires |segs| >= 1
    requires forall i :: 0 <= i < |segs| ==> c !in segs[i]
    ensures CountChar(Join(segs, [c]), c) == |segs| - 1
  {
    CountCharNone(segs[0], c);
    if |segs| > 1 {
      var rest := Join(segs[1..], [c]);
      assert Join(segs, [c]) == segs[0] + ([c] + rest);
      CountCharJoin(segs[1..], c);
      CountCharAppend(segs[0], [c] + rest, c);
      assert ([c] + rest)[1..] == rest;
    }
  }

  lemma {:induction false} CountCharNone(s: string, c: char)
    requires c !in s
    ensures CountChar(s, c) == 0
  {
    if s != [] {
      CountCharNone(s[1..], c);
    }
  }

  lemma {:induction false} CountCharAppend(s: string, t: string, c: char)
    ensures CountChar(s + t, c) == CountChar(s, c) + CountChar(t, c)
  {
    if s == [] {
      assert s + t == t;
    } else {
      assert (s + t)[1..] == s[1..] + t;
      CountCharAppend(s[1..], t, c);
    }
  }

  /** A child's path is the parent's path with one more segment. */
  lemma ChildPathOf(segs: seq<string>, name: string)
    requires forall i :: 0 <= i < |segs| ==> ValidName(segs[i])
    ensures ChildPath(PathOf(segs), name) == PathOf(segs + [name])
  {
    if segs == [] {
      assert segs + [name] == [name];
    } else {
      var j := Join(segs, "/");
      JoinNonEmpty(segs, "/");
      JoinSnoc(segs, name, "/");
      assert PathOf(segs + [name]) == "/" + (j + "/" + name);
      assert ChildPath(PathOf(segs), name) == ("/" + j) + "/" + name;
    }
  }

  /** The depth of a path is the number of its segments. */
  lemma DepthOfPath(segs: seq<string>)
    requires forall i :: 0 <= i < |segs| ==> ValidName(segs[i])
    ensures Depth(PathOf(segs)) == |segs|
  {
    if segs != [] {
      var p := PathOf(segs);
      assert p[1..] == Join(segs, "/");
      CountCharJoin(segs, '/');
    }
  }

  /** Parsing the path of a node gives back its segments. */
  lemma PathOfParses(segs: seq<string>)
    requires forall i :: 0 <= i < |segs| ==> ValidName(segs[i])
    ensures AbsoluteSegments(PathOf(segs)) == Some(segs)
  {
    if segs != [] {
      var j := Join(segs, "/");
      JoinNonEmpty(segs, "/");
      assert PathOf(segs)[1..] == j;
      SplitAllJoin(segs, '/');
    }
  }

  lemma {:induction false} JoinNonEmpty(segs: seq<string>, sep: string)
    requires |segs| >= 1 && segs[0] != ""
    ensures Join(segs, sep) != ""
  {
    if |segs| > 1 {
      assert Join(segs, sep)[0] == segs[0][0];
    }
  }

  // ---------------------------------------------------------------------
  // Children and properties
  // ---------------------------------------------------------------------

  /** The index of the first child with this name. */
  function ChildIndex(cs: seq<Node>, name: string): (r: Option<nat>)
    ensures r.Some? ==> r.value < |cs| && cs[r.value].name == name
    ensures r.Some? ==> forall j :: 0 <= j < r.value ==> cs[j].name != name
    ensures r.None? ==> forall j :: 0 <= j < |cs| ==> cs[j].name != name
  {
    if cs == [] then None
    else if cs[0].name == name then Some(0)
    else match ChildIndex(cs[1..], name)
      case None => None
      case Some(k) => Some(k + 1)
  }

  predicate HasChild(n: Node, name: string)
  {
    ChildIndex(n.children, name).Some?
  }

  /** The node reached from n by following the segments. */
  function Lookup(n: Node, segs: seq<string>): Option<Node>
    decreases |segs|
  {
    if segs == [] then Some(n)
    else match ChildIndex(n.children, segs[0])
      case None => None
      case Some(k) => Lookup(n.children[k], segs[1..])
  }

  /** n with the node at the segments replaced by m (n itself when nothing is there). */
  function ReplaceAt(n: Node, segs: seq<string>, m: Node): Node
    decreases |segs|
  {
    if segs == [] then m
    else match ChildIndex(n.children, segs[0])
      case None => n
      case Some(k) => n.(children := n.children[k := ReplaceAt(n.children[k], segs[1..], m)])
  }

  lemma {:induction false} LookupReplaceAt(n: Node, segs: seq<string>, m: Node)
    requires Lookup(n, segs).Some? && m.name == Lookup(n, segs).value.name
    ensures Lookup(ReplaceAt(n, segs, m), segs) == Some(m)
    ensures ReplaceAt(n, segs, m).name == n.name
  {
    if segs != [] {
      var k := ChildIndex(n.children, segs[0]).value;
      var cs := n.children[k := ReplaceAt(n.children[k], segs[1..], m)];
      assert ChildIndex(cs, segs[0]) == Some(k) by {
        ChildIndexUpdate(n.children, k, ReplaceAt(n.children[k], segs[1..], m), segs[0]);
      }
      LookupReplaceAt(n.children[k], segs[1..], m);
    }
  }

  /** Replacing a child by a node of the same name does not move the name's first index. */
  lemma ChildIndexUpdate(cs: seq<Node>, k: nat, c: Node, name: string)
    requires ChildIndex(cs, name) == Some(k)
    requires c.name == name
    ensures ChildIndex(cs[k := c], name) == Some(k)
  {
    var cs' := cs[k := c];
    assert cs'[k].name == name;
    assert forall j :: 0 <= j < k ==> cs'[j] == cs[j];
  }

  /** A child appended under a name not yet present is found at the end. */
  lemma ChildIndexAppend(cs: seq<Node>, c: Node)
    requires ChildIndex(cs, c.name).None?
    ensures ChildIndex(cs + [c], c.name) == Some(|cs|)
  {
    assert (cs + [c])[|cs|].name == c.name;
  }

  lemma {:induction false} LookupAppend(n: Node, a: seq<string>, b: seq<string>)
    ensures Lookup(n, a + b) == match Lookup(n, a) case None => None case Some(m) => Lookup(m, b)
    decreases |a|
  {
    if a == [] {
      assert a + b == b;
    } else {
      assert (a + b)[0] == a[0] && (a + b)[1..] == a[1..] + b;
      match ChildIndex(n.children, a[0])
      case None =>
      case Some(k) => LookupAppend(n.children[k], a[1..], b);
    }
  }

  /** The value of the first property with this name. */
  function GetProperty(props: seq<Property>, name: string): (r: Option<Value>)
    ensures r.None? <==> forall i :: 0 <= i < |props| ==> props[i].name != name
  {
    if props == [] then None
    else if props[0].name == name then Some(props[0].value)
    else GetProperty(props[1..], name)
  }

  function PropertyIndex(props: seq<Property>, name: string): (r: Option<nat>)
    ensures r.Some? ==> r.value < |props| && props[r.value].name == name
    ensures r.Some? ==> forall j :: 0 <= j < r.value ==> props[j].name != name
    ensures r.None? ==> forall j :: 0 <= j < |props| ==> props[j].name != name
  {
    if props == [] then None
    else if props[0].name == name then Some(0)
    else match PropertyIndex(props[1..], name)
      case None => None
      case Some(k) => Some(k + 1)
  }

  /** Node.setProperty: overwrite the property in place, or append it. */
  function WithProperty(props: seq<Property>, name: string, v: Value): seq<Property>
  {
    match PropertyIndex(props, name)
    case Some(k) => props[k := Property(name, v)]
    case None => props + [Property(name, v)]
  }

  /** Property.remove: drop the property of this name. */
  function WithoutProperty(props: seq<Property>, name: string): (r: seq<Property>)
    ensures forall i :: 0 <= i < |r| ==> r[i].name != name
  {
    if props == [] then []
    else if props[0].name == name then WithoutProperty(props[1..], name)
    else [props[0]] + WithoutProperty(props[1..], name)
  }

  lemma {:induction false} GetPropertyAt(props: seq<Property>, k: nat, name: string)
    requires k < |props| && props[k].name == name
    requires forall j :: 0 <= j < k ==> props[j].name != name
    ensures GetProperty(props, name) == Some(props[k].value)
  {
    if k > 0 {
      GetPropertyAt(props[1..], k - 1, name);
    }
  }

  /** After setProperty the property reads back as the value set. */
  lemma WithPropertyReadsBack(props: seq<Property>, name: string, v: Value)
    ensures GetProperty(WithProperty(props, name, v), name) == Some(v)
  {
    var r := WithProperty(props, name, v);
    match PropertyIndex(props, name)
    case Some(k) => GetPropertyAt(r, k, name);
    case None => GetPropertyAt(r, |props|, name);
  }

  // ---------------------------------------------------------------------
  // The store operations the commands use
  // ---------------------------------------------------------------------

  /** Session.getNode(absolute path). */
  function GetNodeAt(root: Node, path: string): Result<Node>
  {
    match AbsoluteSegments(path)
    case None => Err(path)
    case Some(segs) =>
      match Lookup(root, segs)
      case None => Err(path)
      case Some(n) => Ok(n)
  }

  function NewNode(name: string, primaryType: string): Node
  {
    Node(name, [Property(PrimaryType, Single(primaryType))], [])
  }

  /** Node.addNode(relative path, primary type) called on the root node. */
  function AddNodeAt(root: Node, rel: string, primaryType: string): Result<Node>
  {
    match Segments(rel)
    case None => Err(rel)
    case Some(segs) =>
      var parentSegs := segs[..|segs| - 1];
      var name := segs[|segs| - 1];
      match Lookup(root, parentSegs)
      case None => Err(rel)
      case Some(parent) =>
        if HasChild(parent, name) then Err(rel)
        else Ok(ReplaceAt(root, parentSegs, parent.(children := parent.children + [NewNode(name, primaryType)])))
  }

  /** Node.remove() on the node at an absolute path; the root cannot be removed. */
  function RemoveNodeAt(root: Node, path: string): Result<Node>
  {
    match AbsoluteSegments(path)
    case None => Err(path)
    case Some(segs) =>
      if segs == [] then Err(path)
      else
        var parentSegs := segs[..|segs| - 1];
        match Lookup(root, parentSegs)
        case None => Err(path)
        case Some(parent) =>
          match ChildIndex(parent.children, segs[|segs| - 1])
          case None => Err(path)
          case Some(k) =>
            Ok(ReplaceAt(root, parentSegs, parent.(children := parent.children[..k] + parent.children[k + 1..])))
  }

  /** Node.setProperty on the node at an absolute path. */
  function SetPropertyAt(root: Node, path: string, name: string, v: Value): Result<Node>
  {
    match AbsoluteSegments(path)
    case None => Err(path)
    case Some(segs) =>
      match Lookup(root, segs)
      case None => Err(path)
      case Some(n) => Ok(ReplaceAt(root, segs, n.(props := WithProperty(n.props, name, v))))
  }

  /** Node.getProperty(name).remove() on the node at an absolute path. */
  function RemovePropertyAt(root: Node, path: string, name: string): Result<Node>
  {
    match AbsoluteSegments(path)
    case None => Err(path)
    case Some(segs) =>
      match Lookup(root, segs)
      case None => Err(path)
      case Some(n) =>
        if GetProperty(n.props, name).None? then Err(name)
        else Ok(ReplaceAt(root, segs, n.(props := WithoutProperty(n.props, name))))
  }

  // ---------------------------------------------------------------------
  // Well-formed trees: sibling names are valid and distinct
  // ---------------------------------------------------------------------

  predicate DistinctNames(cs: seq<Node>)
  {
    forall i, j :: 0 <= i < j < |cs| ==> cs[i].name != cs[j].name
  }

  predicate WellFormed(n: Node)
  {
    && DistinctNames(n.children)
    && (forall i :: 0 <= i < |n.children| ==> ValidName(n.children[i].name))
    && (forall i :: 0 <= i < |n.children| ==> WellFormed(n.children[i]))
  }

  lemma DistinctChildIndex(cs: seq<Node>, i: nat)
    requires DistinctNames(cs) && i < |cs|
    ensures ChildIndex(cs, cs[i].name) == Some(i)
  {
  }

  // ---------------------------------------------------------------------
  // Store-level properties
  // ---------------------------------------------------------------------

  /** A node added under an existing parent then reads back with its primary type and no children. */
  lemma AddNodeThenGet(root: Node, rel: string, primaryType: string)
    requires AddNodeAt(root, rel, primaryType).Ok?
    ensures var segs := Segments(rel).value;
      GetNodeAt(AddNodeAt(root, rel, primaryType).value, "/" + rel)
        == Ok(NewNode(segs[|segs| - 1], primaryType))
  {
    var segs := Segments(rel).value;
    var parentSegs := segs[..|segs| - 1];
    var name := segs[|segs| - 1];
    var parent := Lookup(root, parentSegs).value;
    var parent' := parent.(children := parent.children + [NewNode(name, primaryType)]);
    var root' := ReplaceAt(root, parentSegs, parent');
    assert SplitAll("", '/') == [""];
    assert ("/" + rel)[1..] == rel;
    assert AbsoluteSegments("/" + rel) == Some(segs);
    LookupReplaceAt(root, parentSegs, parent');
    assert segs == parentSegs + [name];
    LookupAppend(root', parentSegs, [name]);
    ChildIndexAppend(parent.children, NewNode(name, primaryType));
  }

  /** After a property is set, the node at that path carries it with that value. */
  lemma SetPropertyThenGet(root: Node, path: string, name: string, v: Value)
    requires SetPropertyAt(root, path, name, v).Ok?
    ensures var r := GetNodeAt(SetPropertyAt(root, path, name, v).value, path);
      r.Ok? && GetProperty(r.value.props, name) == Some(v)
  {
    var segs := AbsoluteSegments(path).value;
    var n := Lookup(root, segs).value;
    LookupReplaceAt(root, segs, n.(props := WithProperty(n.props, name, v)));
    WithPropertyReadsBack(n.props, name, v);
  }

  /** After a property is removed, the node at that path no longer has it. */
  lemma RemovePropertyThenGet(root: Node, path: string, name: string)
    requires RemovePropertyAt(root, path, name).Ok?
    ensures var r := GetNodeAt(RemovePropertyAt(root, path, name).value, path);
      r.Ok? && GetProperty(r.value.props, name).None?
  {
    var segs := AbsoluteSegments(path).value;
    var n := Lookup(root, segs).value;
    LookupReplaceAt(root, segs, n.(props := WithoutProperty(n.props, name)));
  }

  /** In a well-formed tree a removed node, and everything below it, no longer resolves. */
  lemma RemoveNodeThenGet(root: Node, path: string, below: seq<string>)
    requires WellFormed(root)
    requires RemoveNodeAt(root, path).Ok?
    ensures Lookup(RemoveNodeAt(root, path).value, AbsoluteSegments(path).value + below).None?
  {
    var segs := AbsoluteSegments(path).value;
    var parentSegs := segs[..|segs| - 1];
    var parent := Lookup(root, parentSegs).value;
    var k := ChildIndex(parent.children, segs[|segs| - 1]).value;
    assert segs + below == parentSegs + ([parent.children[k].name] + below);
    RemovedSubtreeGone(root, parentSegs, parent, k, below);
  }

  lemma RemovedSubtreeGone(root: Node, parentSegs: seq<string>, parent: Node, k: nat, below: seq<string>)
    requires WellFormed(root)
    requires Lookup(root, parentSegs) == Some(parent) && k < |parent.children|
    ensures var parent' := parent.(children := parent.children[..k] + parent.children[k + 1..]);
      Lookup(ReplaceAt(root, parentSegs, parent'), parentSegs + ([parent.children[k].name] + below)).None?
  {
    var name := parent.children[k].name;
    var parent' := parent.(children := parent.children[..k] + parent.children[k + 1..]);
    var root' := ReplaceAt(root, parentSegs, parent');
    LookupReplaceAt(root, parentSegs, parent');
    WellFormedLookup(root, parentSegs);
    RemovedChildGone(parent.children, k, name);
    LookupAppend(root', parentSegs, [name] + below);
  }

  lemma RemovedChildGone(cs: seq<Node>, k: nat, name: string)
    requires DistinctNames(cs) && k < |cs| && cs[k].name == name
    ensures ChildIndex(cs[..k] + cs[k + 1..], name).None?
  {
    var rest := cs[..k] + cs[k + 1..];
    forall j | 0 <= j < |rest| ensures rest[j].name != name {
      if j < k {
        assert rest[j] == cs[j];
      } else {
        assert rest[j] == cs[j + 1];
      }
    }
  }

  /** Every node of a well-formed tree is well-formed. */
  lemma {:induction false} WellFormedLookup(n: Node, segs: seq<string>)
    requires WellFormed(n) && Lookup(n, segs).Some?
    ensures WellFormed(Lookup(n, segs).value)
    decreases |segs|
  {
    if segs != [] {
      var k := ChildIndex(n.children, segs[0]).value;
      WellFormedLookup(n.children[k], segs[1..]);
    }
  }

  // ---------------------------------------------------------------------
  // Rendering and the colour query
  // ---------------------------------------------------------------------

  /** How a value prints: the string, or "[v1, v2, ...]" for a multi-valued property. */
  function RenderValue(v: Value): string
  {
    match v
    case Single(s) => s
    case Multi(vs) => "[" + Join(vs, ", ") + "]"
  }

  /** A node matches `colour = 'c'` when its colour property is c or, multi-valued, contains c. */
  predicate HasColour(n: Node, c: string)
  {
    match GetProperty(n.props, ColourProperty)
    case Some(Single(s)) => s == c
    case Some(Multi(vs)) => c in vs
    case None => false
  }

  /** The paths of the matching nodes of the subtree at segs, in pre-order. */
  function Matches(n: Node, segs: seq<string>, c: string): seq<string>
  {
    (if HasColour(n, c) then [PathOf(segs)] else []) + MatchesIn(n.children, segs, c)
  }

  function MatchesIn(cs: seq<Node>, segs: seq<string>, c: string): seq<string>
  {
    if cs == [] then []
    else Matches(cs[0], segs + [cs[0].name], c) + MatchesIn(cs[1..], segs, c)
  }

  /** Every path the colour query returns names a node that carries the colour. */
  lemma MatchesSound(root: Node, c: string, p: string)
    requires WellFormed(root)
    requires p in Matches(root, [], c)
    ensures GetNodeAt(root, p).Ok? && HasColour(GetNodeAt(root, p).value, c)
  {
    MatchesSoundAt(root, [], root, c, p);
  }

  lemma {:induction false} MatchesSoundAt(root: Node, segs: seq<string>, n: Node, c: string, p: string)
    requires Lookup(root, segs) == Some(n) && WellFormed(n)
    requires forall i :: 0 <= i < |segs| ==> ValidName(segs[i])
    requires p in Matches(n, segs, c)
    ensures GetNodeAt(root, p).Ok? && HasColour(GetNodeAt(root, p).value, c)
    decreases n, 1
  {
    if HasColour(n, c) && p == PathOf(segs) {
      PathOfParses(segs);
    } else {
      assert p in MatchesIn(n.children, segs, c);
      MatchesInSoundAt(root, segs, n, n.children, c, p);
    }
  }

  lemma {:induction false} MatchesInSoundAt(root: Node, segs: seq<string>, n: Node, cs: seq<Node>, c: string, p: string)
    requires Lookup(root, segs) == Some(n) && WellFormed(n)
    requires forall i :: 0 <= i < |segs| ==> ValidName(segs[i])
    requires |cs| <= |n.children| && cs == n.children[|n.children| - |cs|..]
    requires p in MatchesIn(cs, segs, c)
    ensures GetNodeAt(root, p).Ok? && HasColour(GetNodeAt(root, p).value, c)
    decreases n, 0, |cs|
  {
    var i := |n.children| - |cs|;
    var child := cs[0];
    assert child == n.children[i];
    if p in Matches(child, segs + [child.name], c) {
      DistinctChildIndex(n.children, i);
      LookupAppend(root, segs, [child.name]);
      MatchesSoundAt(root, segs + [child.name], child, c, p);
    } else {
      MatchesInSoundAt(root, segs, n, cs[1..], c, p);
    }
  }

  /** Every node that carries the colour is returned by the colour query. */
  lemma MatchesComplete(root: Node, segs: seq<string>, c: string)
    requires Lookup(root, segs).Some? && HasColour(Lookup(root, segs).value, c)
    ensures PathOf(segs) in Matches(root, [], c)
  {
    MatchesCompleteAt(root, [], segs, c);
    assert [] + segs == segs;
  }

  lemma {:induction false} MatchesCompleteAt(n: Node, pre: seq<string>, segs: seq<string>, c: string)
    requires Lookup(n, segs).Some? && HasColour(Lookup(n, segs).value, c)
    ensures PathOf(pre + segs) in Matches(n, pre, c)
    decreases |segs|
  {
    if segs == [] {
      assert pre + segs == pre;
    } else {
      var k := ChildIndex(n.children, segs[0]).value;
      var child := n.children[k];
      assert pre + segs == (pre + [child.name]) + segs[1..];
      MatchesCompleteAt(child, pre + [child.name], segs[1..], c);
      MatchesInContains(n.children, k, pre, c, PathOf(pre + segs));
    }
  }

  lemma {:induction false} MatchesInContains(cs: seq<Node>, k: nat, pre: seq<string>, c: string, p: string)
    requires k < |cs| && p in Matches(cs[k], pre + [cs[k].name], c)
    ensures p in MatchesIn(cs, pre, c)
    decreases |cs|
  {
    if k > 0 {
      MatchesInContains(cs[1..], k - 1, pre, c, p);
    }
  }
}
