/**
 * The Repository gateway: it builds the JCR repository over a node store,
 * with two initialisers (the `colour` property index definition, then
 * BunchOfColours), closes the file store it opened, and keeps one lazily
 * created instance for the whole shell.
 */
module OakRepository {
  import opened Java
  import opened JcrTree
  import opened Jcr
  import BunchOfColours

  const OakIndex: string := "oak:index"
  const ColourIndex: string := "colour"
  const ReindexProperty: string := "reindex"
  const PropertyNames: string := "propertyNames"

  /**
   * The definition createIndexDefinition(index, "colour", true, false,
   * of("colour"), null) writes: named colour, to be reindexed, over the one
   * property name `colour`, not unique and for any node type.
   */
  const ColourIndexDefinition: Node :=
    Node(ColourIndex, [Property(ReindexProperty, Single("true")), Property(PropertyNames, Multi([ColourProperty]))], [])

  /** The tree after the index initialiser. */
  function IndexInitialised(root: Node): Node
  {
    if Lookup(root, [OakIndex, ColourIndex]).Some? then root
    else match ChildIndex(root.children, OakIndex)
      case None => root.(children := root.children + [Node(OakIndex, [], [ColourIndexDefinition])])
      case Some(k) =>
        var index := root.children[k];
        root.(children := root.children[k := index.(children := index.children + [ColourIndexDefinition])])
  }

  /**
   * The anonymous RepositoryInitializer of initialiseRepo: nothing happens
   * when oak:index/colour exists; otherwise oak:index is fetched or created
   * and the colour definition added below it.
   */
  method InitializeIndex(builder: NodeBuilder)
    modifies builder
    ensures builder.node == IndexInitialised(old(builder.node))
  {
    if Lookup(builder.node, [OakIndex, ColourIndex]).Some? {
      return;
    }
    // IndexUtils.getOrCreateOakIndex
    var k := ChildIndex(builder.node.children, OakIndex);
    var at: nat;
    if k.None? {
      builder.node := builder.node.(children := builder.node.children + [Node(OakIndex, [], [])]);
      at := |builder.node.children| - 1;
    } else {
      at := k.value;
    }
    var index := builder.node.children[at];
    ghost var cs := builder.node.children;
    assert k.None? ==> cs == old(builder.node).children + [Node(OakIndex, [], [])] && at == |old(builder.node).children|;
    // IndexUtils.createIndexDefinition
    index := index.(children := index.children + [ColourIndexDefinition]);
    builder.node := builder.node.(children := builder.node.children[at := index]);
    assert k.None? ==> index == Node(OakIndex, [], [ColourIndexDefinition]);
    assert k.None? ==> cs[at := index] == old(builder.node).children + [index];
  }

  /** The index initialiser leaves a tree that already has oak:index/colour alone. */
  lemma IndexGuarded(root: Node)
    requires Lookup(root, [OakIndex, ColourIndex]).Some?
    ensures IndexInitialised(root) == root
  {
  }

  /** Without oak:index/colour the initialiser defines it, over the property name colour only. */
  lemma IndexDefined(root: Node)
    requires Lookup(root, [OakIndex, ColourIndex]).None?
    ensures Lookup(IndexInitialised(root), [OakIndex, ColourIndex]) == Some(ColourIndexDefinition)
    ensures GetProperty(ColourIndexDefinition.props, PropertyNames) == Some(Multi([ColourProperty]))
    ensures GetProperty(ColourIndexDefinition.props, ReindexProperty) == Some(Single("true"))
  {
    var t := IndexInitialised(root);
    match ChildIndex(root.children, OakIndex)
    case None =>
      var index := Node(OakIndex, [], [ColourIndexDefinition]);
      ChildIndexAppend(root.children, index);
      assert [OakIndex, ColourIndex][1..] == [ColourIndex];
      assert Lookup(t, [OakIndex, ColourIndex]) == Lookup(index, [ColourIndex]);
      assert index.children[0] == ColourIndexDefinition;
      LookupOne(index, ColourIndex);
    case Some(k) =>
      var index := root.children[k];
      var index' := index.(children := index.children + [ColourIndexDefinition]);
      ChildIndexUpdate(root.children, k, index', OakIndex);
      assert [OakIndex, ColourIndex][1..] == [ColourIndex];
      assert Lookup(root, [OakIndex, ColourIndex]) == Lookup(index, [ColourIndex]);
      LookupOne(index, ColourIndex);
      assert ColourIndexDefinition.name == ColourIndex;
      ChildIndexAppend(index.children, ColourIndexDefinition);
      assert Lookup(t, [OakIndex, ColourIndex]) == Lookup(index', [ColourIndex]);
      LookupOne(index', ColourIndex);
      assert index'.children[|index.children|] == ColourIndexDefinition;
  }

  lemma LookupOne(n: Node, name: string)
    ensures Lookup(n, [name]).None? <==> ChildIndex(n.children, name).None?
    ensures ChildIndex(n.children, name).Some? ==> Lookup(n, [name]) == Some(n.children[ChildIndex(n.children, name).value])
  {
    assert [name][0] == name && [name][1..] == [];
  }

  /** Running the index initialiser twice is running it once. */
  lemma IndexIdempotent(root: Node)
    ensures IndexInitialised(IndexInitialised(root)) == IndexInitialised(root)
  {
    if Lookup(root, [OakIndex, ColourIndex]).None? {
      IndexDefined(root);
    }
  }

  /** The index initialiser touches nothing but oak:index: the root's properties and every other child stay. */
  lemma IndexTouchesOnlyOakIndex(root: Node, j: int)
    requires 0 <= j < |root.children| && root.children[j].name != OakIndex
    ensures IndexInitialised(root).props == root.props
    ensures |IndexInitialised(root).children| >= |root.children|
    ensures IndexInitialised(root).children[j] == root.children[j]
  {
  }

  /**
   * What initialiseRepo leaves in the store: the index initialiser's tree,
   * then seeded by BunchOfColours unless it had `unitedcolours` already.
   */
  ghost predicate InitialisedFrom(store: Node, root: Node)
  {
    var indexed := IndexInitialised(store);
    if HasChild(indexed, BunchOfColours.UnitedColours) then root == indexed
    else exists colours :: BunchOfColours.IsDraw(colours) && root == BunchOfColours.Seeded(indexed, colours)
  }

  /** Initialising a fresh store defines the colour index and seeds the colours. */
  lemma FreshStoreInitialised(store: Node, colours: seq<string>)
    requires store.children == [] && BunchOfColours.IsDraw(colours)
    ensures var root := BunchOfColours.Seeded(IndexInitialised(store), colours);
      && InitialisedFrom(store, root)
      && Lookup(root, [OakIndex, ColourIndex]) == Some(ColourIndexDefinition)
      && HasChild(root, BunchOfColours.UnitedColours)
  {
    var indexed := IndexInitialised(store);
    assert indexed.children == [Node(OakIndex, [], [ColourIndexDefinition])];
    assert indexed.children[0].name != BunchOfColours.UnitedColours;
    assert !HasChild(indexed, BunchOfColours.UnitedColours);
    BunchOfColours.SeedingIsGuarded(indexed, colours);
    var root := BunchOfColours.Seeded(indexed, colours);
    assert root.children[0] == indexed.children[0];
    assert ChildIndex(root.children, OakIndex) == Some(0);
    assert [OakIndex, ColourIndex][1..] == [ColourIndex];
    assert Lookup(root, [OakIndex, ColourIndex]) == Lookup(root.children[0], [ColourIndex]);
    assert root.children[0].children[0] == ColourIndexDefinition;
    LookupOne(root.children[0], ColourIndex);
  }

  /** An open segment store on disk; close() releases it. */
  class FileStore {
    var closed: bool

    constructor ()
      ensures !closed
    {
      closed := false;
    }

    method Close()
      modifies this
      ensures closed
    {
      closed := true;
    }
  }

  /** initialiseRepo: run the two initialisers on the store's builder, then create the JCR repository. */
  method InitialiseRepo(store: Node) returns (jcrRepo: ContentRepository)
    ensures fresh(jcrRepo)
    ensures InitialisedFrom(store, jcrRepo.root) && jcrRepo.logins == 0 && jcrRepo.logouts == 0
  {
    var builder := new NodeBuilder(store);
    InitializeIndex(builder);
    BunchOfColours.Initialize(builder);
    jcrRepo := new ContentRepository(builder.node);
  }

  class Repository {
    var jcrRepo: ContentRepository
    /** Set only when the repository opened a segment store of its own. */
    var fileStore: FileStore?

    /** Repository(NodeStore): over a store supplied by the caller; no file store is opened. */
    constructor FromStore(store: Node)
      ensures fileStore == null && fresh(jcrRepo)
      ensures InitialisedFrom(store, jcrRepo.root) && jcrRepo.logins == 0 && jcrRepo.logouts == 0
    {
      var j := InitialiseRepo(store);
      jcrRepo := j;
      fileStore := null;
    }

    /** Repository(): over the segment store it opens on disk; `disk` is that store's content. */
    constructor OnDisk(disk: Node)
      ensures fresh(fileStore) && fileStore != null && !fileStore.closed && fresh(jcrRepo)
      ensures InitialisedFrom(disk, jcrRepo.root) && jcrRepo.logins == 0 && jcrRepo.logouts == 0
    {
      var fs := new FileStore();
      var j := InitialiseRepo(disk);
      jcrRepo := j;
      fileStore := fs;
    }

    /** close(): the file store is closed if there is one; a repository over a supplied store closes nothing. */
    method Close()
      modifies fileStore
      ensures fileStore != null ==> fileStore.closed
    {
      if fileStore != null {
        fileStore.Close();
      }
    }

    /** login(ADMIN): a session of the JCR repository. */
    method Login() returns (s: Session)
      modifies jcrRepo
      ensures fresh(s) && s.repo == jcrRepo && s.view == old(jcrRepo.root) && !s.loggedOut
      ensures jcrRepo.root == old(jcrRepo.root)
      ensures jcrRepo.logins == old(jcrRepo.logins) + 1 && jcrRepo.logouts == old(jcrRepo.logouts)
    {
      s := jcrRepo.Login();
    }
  }

  /** The static `repo` field and its two accessors. */
  class Registry {
    var repo: Repository?

    constructor ()
      ensures repo == null
    {
      repo := null;
    }

    /**
     * getRepo: the cached instance when there is one; otherwise a new
     * repository on disk, cached and returned. `disk` is None when the
     * segment store cannot be opened: the IOException is logged, null is
     * returned and the cache stays empty, so the next call tries again.
     */
    method GetRepo(disk: Option<Node>) returns (r: Repository?)
      modifies this
      ensures old(repo) != null ==> r == old(repo) && repo == old(repo)
      ensures old(repo) == null && disk.None? ==> r == null && repo == null
      ensures old(repo) == null && disk.Some? ==>
        && r != null && fresh(r) && repo == r
        && r.fileStore != null && fresh(r.fileStore) && !r.fileStore.closed
        && InitialisedFrom(disk.value, r.jcrRepo.root)
    {
      if repo == null {
        if disk.Some? {
          repo := new Repository.OnDisk(disk.value);
        }
      }
      r := repo;
    }

    /** setRepo: a null repository is rejected with a NullPointerException and the cache kept. */
    method SetRepo(r: Repository?) returns (thrown: Option<Exception>)
      modifies this
      ensures r == null ==> thrown == Some(NullPointerException) && repo == old(repo)
      ensures r != null ==> thrown == None && repo == r
    {
      if r == null {
        return Some(NullPointerException);
      }
      repo := r;
      thrown := None;
    }
  }
}
