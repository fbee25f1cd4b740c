/**
 * The JCR objects the commands hold: the content repository that issues
 * sessions, a session with its transient view of the tree, and the
 * NodeBuilder that repository initialisers write through. The tree they work
 * on is the value model of JcrTree.
 */
module Jcr {
  import opened Java
  import opened JcrTree

  /** Whether a session operation went through. */
  datatype Status = Done | Failed(message: string)

  function StatusOf(r: Result<Node>): Status
  {
    match r
    case Ok(_) => Done
    case Err(m) => Failed(m)
  }

  /** The tree after an operation: its new tree, or the old one when it failed. */
  function After(before: Node, r: Result<Node>): Node
  {
    match r
    case Ok(t) => t
    case Err(_) => before
  }

  /** The javax.jcr.Repository: the saved tree, and how many sessions were opened and closed. */
  class ContentRepository {
    var root: Node
    ghost var logins: nat
    ghost var logouts: nat

    constructor (root: Node)
      ensures this.root == root && logins == 0 && logouts == 0
    {
      this.root := root;
      logins, logouts := 0, 0;
    }

    /** login with the admin credentials, which the repository always accepts. */
    method Login() returns (s: Session)
      modifies this
      ensures fresh(s) && s.repo == this && s.view == root && !s.loggedOut
      ensures root == old(root) && logins == old(logins) + 1 && logouts == old(logouts)
    {
      s := new Session(this);
      logins := logins + 1;
    }
  }

  /** A session: writes go to its transient view until save(). */
  class Session {
    const repo: ContentRepository
    var view: Node
    var loggedOut: bool

    constructor (repo: ContentRepository)
      ensures this.repo == repo && view == repo.root && !loggedOut
    {
      this.repo := repo;
      view := repo.root;
      loggedOut := false;
    }

    method GetNode(path: string) returns (r: Result<Node>)
      requires !loggedOut
      ensures r == GetNodeAt(view, path)
    {
      r := GetNodeAt(view, path);
    }

    /** getRootNode().addNode(rel, primaryType). */
    method AddNode(rel: string, primaryType: string) returns (st: Status)
      requires !loggedOut
      modifies this
      ensures st == StatusOf(AddNodeAt(old(view), rel, primaryType))
      ensures view == After(old(view), AddNodeAt(old(view), rel, primaryType))
      ensures loggedOut == old(loggedOut)
    {
      var r := AddNodeAt(view, rel, primaryType);
      st := StatusOf(r);
      view := After(view, r);
    }

    /** getNode(path).remove(). */
    method RemoveNode(path: string) returns (st: Status)
      requires !loggedOut
      modifies this
      ensures st == StatusOf(RemoveNodeAt(old(view), path))
      ensures view == After(old(view), RemoveNodeAt(old(view), path))
      ensures loggedOut == old(loggedOut)
    {
      var r := RemoveNodeAt(view, path);
      st := StatusOf(r);
      view := After(view, r);
    }

    /** getNode(path).setProperty(name, value). */
    method SetProperty(path: string, name: string, v: Value) returns (st: Status)
      requires !loggedOut
      modifies this
      ensures st == StatusOf(SetPropertyAt(old(view), path, name, v))
      ensures view == After(old(view), SetPropertyAt(old(view), path, name, v))
      ensures loggedOut == old(loggedOut)
    {
      var r := SetPropertyAt(view, path, name, v);
      st := StatusOf(r);
      view := After(view, r);
    }

    /** getNode(path).getProperty(name).remove(). */
    method RemoveProperty(path: string, name: string) returns (st: Status)
      requires !loggedOut
      modifies this
      ensures st == StatusOf(RemovePropertyAt(old(view), path, name))
      ensures view == After(old(view), RemovePropertyAt(old(view), path, name))
      ensures loggedOut == old(loggedOut)
    {
      var r := RemovePropertyAt(view, path, name);
      st := StatusOf(r);
      view := After(view, r);
    }

    /** A JCR-SQL2 query; see QueryAt for the statements this model evaluates. */
    method Query(statement: string) returns (r: Result<seq<string>>)
      requires !loggedOut
      ensures r == QueryAt(view, statement)
    {
      r := QueryAt(view, statement);
    }

    /** save(): the transient view becomes the repository's tree. */
    method Save()
      requires !loggedOut
      modifies repo
      ensures repo.root == view
      ensures repo.logins == old(repo.logins) && repo.logouts == old(repo.logouts)
    {
      repo.root := view;
    }

    /** logout(): unsaved changes are dropped with the session. */
    method Logout()
      requires !loggedOut
      modifies this, repo
      ensures loggedOut && view == old(view)
      ensures repo.root == old(repo.root)
      ensures repo.logins == old(repo.logins) && repo.logouts == old(repo.logouts) + 1
    {
      loggedOut := true;
      repo.logouts := repo.logouts + 1;
    }
  }

  /** The one query shape the shell issues: every node whose colour equals a literal. */
  const ColourQueryPrefix: string := "SELECT * FROM [nt:base] WHERE colour = '"

  /**
   * The colour of a statement of exactly the shape prefix + colour + "'", with
   * no quote inside the colour; any other statement is not evaluated here.
   */
  function ColourQueried(statement: string): (r: Option<string>)
    ensures r.Some? ==> statement == ColourQueryPrefix + r.value + "'" && '\'' !in r.value
  {
    var n := |ColourQueryPrefix|;
    if |statement| > n && statement[..n] == ColourQueryPrefix && statement[|statement| - 1] == '\''
       && '\'' !in statement[n..|statement| - 1]
    then
      assert statement == statement[..n] + statement[n..|statement| - 1] + "'";
      Some(statement[n..|statement| - 1])
    else None
  }

  /** The rows of a query: the matching paths in pre-order, or an invalid-query error. */
  function QueryAt(root: Node, statement: string): Result<seq<string>>
  {
    match ColourQueried(statement)
    case Some(c) => Ok(Matches(root, [], c))
    case None => Err(statement)
  }

  /** A NodeBuilder on the root, as repository initialisers receive it. */
  class NodeBuilder {
    var node: Node

    constructor (node: Node)
      ensures this.node == node
    {
      this.node := node;
    }
  }
}
