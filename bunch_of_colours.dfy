/**
 * The BunchOfColours repository initialiser: unless the root already has a
 * `unitedcolours` child, it creates one holding the nodes n000 .. n099, each
 * of primary type oak:Unstructured with a colour drawn at random.
 */
module BunchOfColours {
  import opened Java
  import opened JcrTree
  import opened Jcr

  const UnitedColours: string := "unitedcolours"
  const OakUnstructured: string := "oak:Unstructured"
  /** The bound of the seeding loop. */
  const SeedCount: nat := 100

  /** The COLOURS enum constants, in declaration order. */
  const ColourConstants: seq<string> := ["RED", "GREEN", "BLUE"]
  /** The colours the seeded nodes carry. */
  const Colours: seq<string> := ["red", "green", "blue"]

  /** The colour values are the enum constants in lower case. */
  lemma LoweredConstants(k: int)
    requires 0 <= k < |ColourConstants|
    ensures ToLower(ColourConstants[k]) == Colours[k]
  {
    var u := ColourConstants[k];
    var l := ToLower(u);
    assert |l| == |Colours[k]|;
    forall i | 0 <= i < |l| ensures l[i] == Colours[k][i] {
      assert l[i] == LowerChar(u[i]);
    }
  }

  /**
   * COLOURS.getRandomColour: a constant picked by the shared Random, lower
   * cased. The pick is a nondeterministic choice here.
   */
  method RandomColour() returns (c: string)
    ensures c in Colours
  {
    var k :| 0 <= k < |ColourConstants|;
    LoweredConstants(k);
    c := ToLower(ColourConstants[k]);
  }

  function Digit(d: nat): (c: char)
    requires d < 10
    ensures '0' <= c <= '9'
  {
    ('0' as int + d) as char
  }

  /** String.format("n%03d", i): the index zero-padded to three digits. */
  function SeedName(i: nat): (s: string)
    requires i < 1000
    ensures |s| == 4 && s[0] == 'n'
    ensures forall k :: 1 <= k < 4 ==> '0' <= s[k] <= '9'
    ensures ValidName(s)
  {
    "n" + [Digit(i / 100), Digit(i / 10 % 10), Digit(i % 10)]
  }

  lemma SeedNameExamples()
    ensures SeedName(0) == "n000" && SeedName(7) == "n007" && SeedName(42) == "n042" && SeedName(99) == "n099"
  {
  }

  /** A number below 1000 is given by its three decimal digits. */
  lemma ThreeDigits(i: nat)
    requires i < 1000
    ensures i == 100 * (i / 100) + 10 * (i / 10 % 10) + i % 10
  {
    assert i == 10 * (i / 10) + i % 10;
    assert i / 10 == 10 * (i / 10 / 10) + i / 10 % 10;
    assert i / 10 / 10 == i / 100;
  }

  /** Different indices give different names. */
  lemma SeedNameInjective(i: nat, j: nat)
    requires i < 1000 && j < 1000 && SeedName(i) == SeedName(j)
    ensures i == j
  {
    assert SeedName(i)[1] == SeedName(j)[1] && SeedName(i)[2] == SeedName(j)[2] && SeedName(i)[3] == SeedName(j)[3];
    assert i / 100 == j / 100 && i / 10 % 10 == j / 10 % 10 && i % 10 == j % 10;
    ThreeDigits(i);
    ThreeDigits(j);
  }

  /** The i-th seeded node: its name, primary type and colour. */
  function SeedNode(i: nat, colour: string): Node
    requires i < 1000
  {
    Node(SeedName(i), [Property(PrimaryType, Single(OakUnstructured)), Property(ColourProperty, Single(colour))], [])
  }

  function SeedNodes(colours: seq<string>): seq<Node>
    requires |colours| <= 1000
  {
    seq(|colours|, i requires 0 <= i < |colours| => SeedNode(i, colours[i]))
  }

  /** Colours as the seeding loop draws them: one per seeded node. */
  predicate IsDraw(colours: seq<string>)
  {
    |colours| == SeedCount && forall i :: 0 <= i < |colours| ==> colours[i] in Colours
  }

  /** The root once seeded with these colours: `unitedcolours` appended, with no properties of its own. */
  function Seeded(root: Node, colours: seq<string>): Node
    requires |colours| <= 1000
  {
    root.(children := root.children + [Node(UnitedColours, [], SeedNodes(colours))])
  }

  /** The seeded nodes' names are distinct. */
  lemma SeedNamesDistinct(colours: seq<string>)
    requires |colours| <= 1000
    ensures DistinctNames(SeedNodes(colours))
    ensures forall i :: 0 <= i < |colours| ==> ValidName(SeedNodes(colours)[i].name)
  {
    var cs := SeedNodes(colours);
    forall i, j | 0 <= i < j < |cs| ensures cs[i].name != cs[j].name {
      if cs[i].name == cs[j].name {
        SeedNameInjective(i, j);
      }
    }
  }

  /**
   * BunchOfColours.initialize on a NodeBuilder over the root: nothing happens
   * when `unitedcolours` exists; otherwise it is created with its 100 nodes,
   * each child built and given its two properties in turn.
   */
  method Initialize(builder: NodeBuilder)
    modifies builder
    ensures HasChild(old(builder.node), UnitedColours) ==> builder.node == old(builder.node)
    ensures !HasChild(old(builder.node), UnitedColours) ==>
      exists colours :: IsDraw(colours) && builder.node == Seeded(old(builder.node), colours)
  {
    if HasChild(builder.node, UnitedColours) {
      // nodes are already there
      return;
    }
    var unitedColours := Node(UnitedColours, [], []);
    ghost var drawn: seq<string> := [];
    for i := 0 to SeedCount
      invariant |drawn| == i
      invariant forall k :: 0 <= k < i ==> drawn[k] in Colours
      invariant unitedColours == Node(UnitedColours, [], SeedNodes(drawn))
      invariant builder.node == old(builder.node)
    {
      var colour := RandomColour();
      var child := Node(SeedName(i), [], []);
      child := child.(props := child.props + [Property(PrimaryType, Single(OakUnstructured))]);
      child := child.(props := child.props + [Property(ColourProperty, Single(colour))]);
      assert child == SeedNode(i, colour);
      assert SeedNodes(drawn + [colour]) == SeedNodes(drawn) + [child];
      unitedColours := unitedColours.(children := unitedColours.children + [child]);
      drawn := drawn + [colour];
    }
    builder.node := builder.node.(children := builder.node.children + [unitedColours]);
    assert IsDraw(drawn) && builder.node == Seeded(old(builder.node), drawn);
  }

  /** After seeding, the guard holds: a second initialize leaves the tree alone. */
  lemma SeedingIsGuarded(root: Node, colours: seq<string>)
    requires !HasChild(root, UnitedColours) && IsDraw(colours)
    ensures HasChild(Seeded(root, colours), UnitedColours)
  {
    ChildIndexAppend(root.children, Node(UnitedColours, [], SeedNodes(colours)));
  }

  /** Seeding keeps a well-formed tree well-formed. */
  lemma SeededWellFormed(root: Node, colours: seq<string>)
    requires WellFormed(root) && !HasChild(root, UnitedColours) && IsDraw(colours)
    ensures WellFormed(Seeded(root, colours))
  {
    var u := Node(UnitedColours, [], SeedNodes(colours));
    SeedNamesDistinct(colours);
    assert WellFormed(u);
    var cs := root.children + [u];
    forall i, j | 0 <= i < j < |cs| ensures cs[i].name != cs[j].name {
      if j == |root.children| {
        assert cs[i] == root.children[i];
      }
    }
    assert forall i :: 0 <= i < |cs| ==> WellFormed(cs[i]) && ValidName(cs[i].name);
  }

  /** The i-th seeded node sits under `unitedcolours` by its name. */
  lemma SeededLookup(root: Node, colours: seq<string>, i: nat)
    requires !HasChild(root, UnitedColours) && IsDraw(colours) && i < SeedCount
    ensures Lookup(Seeded(root, colours), [UnitedColours, SeedName(i)]) == Some(SeedNode(i, colours[i]))
  {
    var u := Node(UnitedColours, [], SeedNodes(colours));
    var segs := [UnitedColours, SeedName(i)];
    ChildIndexAppend(root.children, u);
    SeedNamesDistinct(colours);
    DistinctChildIndex(SeedNodes(colours), i);
    var s := Seeded(root, colours);
    assert s.children[|root.children|] == u;
    assert Lookup(s, segs) == Lookup(u, segs[1..]);
    assert u.children[i] == SeedNode(i, colours[i]);
    assert Lookup(u, segs[1..]) == Lookup(u.children[i], []);
  }

  /**
   * The i-th seeded node is found at /unitedcolours/n<i>, of primary type
   * oak:Unstructured and with a colour from red, green and blue.
   */
  lemma SeedNodeFound(root: Node, colours: seq<string>, i: nat)
    requires !HasChild(root, UnitedColours) && IsDraw(colours) && i < SeedCount
    ensures var r := GetNodeAt(Seeded(root, colours), PathOf([UnitedColours, SeedName(i)]));
      && r.Ok? && r.value.name == SeedName(i) && r.value.children == []
      && GetProperty(r.value.props, PrimaryType) == Some(Single(OakUnstructured))
      && GetProperty(r.value.props, ColourProperty) == Some(Single(colours[i]))
      && colours[i] in Colours
  {
    PathOfParses([UnitedColours, SeedName(i)]);
    SeededLookup(root, colours, i);
  }

  /** The colour query for a seeded node's colour finds that node. */
  lemma SeedNodeQueried(root: Node, colours: seq<string>, i: nat)
    requires !HasChild(root, UnitedColours) && IsDraw(colours) && i < SeedCount
    ensures PathOf([UnitedColours, SeedName(i)]) in Matches(Seeded(root, colours), [], colours[i])
  {
    var segs := [UnitedColours, SeedName(i)];
    SeedNodeFound(root, colours, i);
    PathOfParses(segs);
    MatchesComplete(Seeded(root, colours), segs, colours[i]);
  }
}
