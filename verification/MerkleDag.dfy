// ipfs_lite/ipfs/merkledag: storing nodes by content, and fetching the graph below a
// node, cut at a depth.

module MerkleDag {
  import opened Basics
  import opened Ordered
  import opened IpldNode
  import opened IpldNodeImpl

  type Name = seq<byte>

  datatype ServiceError = NotFound | Malformed(error: NodeError) | UnresolvedLink | DuplicateLeaf

  type Getter = Cid -> Result<Node, ServiceError>

  // A leaf as it is stored inside its parent.
  datatype Tree = Tree(content: seq<byte>, children: map<Name, Tree>)

  // ---------------------------------------------------------------- meaning of a graph

  // Where a path of link names leads; the nodes on the way must be readable.
  function Target(get: Getter, cid: Cid, path: seq<Name>): Option<Cid>
    decreases |path|
  {
    if path == [] then Some(cid)
    else match get(cid)
      case Err(_) => None
      case Ok(node) =>
        match Lookup(node.links, path[0])
        case None => None
        case Some(link) => Target(get, link.cid, path[1..])
  }

  // The content at the end of a path.
  function ContentAt(get: Getter, cid: Cid, path: seq<Name>): Option<seq<byte>> {
    match Target(get, cid, path)
    case None => None
    case Some(c) => if get(c).Ok? then Some(get(c).value.content) else None
  }

  function TreeAt(t: Tree, path: seq<Name>): Option<seq<byte>>
    decreases |path|
  {
    if path == [] then Some(t.content)
    else if path[0] in t.children then TreeAt(t.children[path[0]], path[1..])
    else None
  }

  // No limit, or at most `depth` links.
  predicate Within(path: seq<Name>, depth: Option<nat>) {
    depth == None || |path| <= depth.value
  }

  // At the end of a path the tree has what the graph has: the content within the depth,
  // nothing beyond. No path of the graph within the depth is left out.
  predicate Agrees(get: Getter, cid: Cid, depth: Option<nat>, t: Tree, path: seq<Name>) {
    TreeAt(t, path) == (if Within(path, depth) then ContentAt(get, cid, path) else None) &&
    (Within(path, depth) && Target(get, cid, path).Some? ==> TreeAt(t, path).Some?)
  }

  // The tree is the graph below cid, cut at the depth.
  ghost predicate IsUnfolding(get: Getter, cid: Cid, depth: Option<nat>, t: Tree) {
    forall path :: Agrees(get, cid, depth, t, path)
  }

  // A path within the depth that leads to a node which cannot be read.
  predicate Broken(get: Getter, cid: Cid, depth: Option<nat>, path: seq<Name>) {
    Within(path, depth) && Target(get, cid, path).Some? && get(Target(get, cid, path).value).Err?
  }

  ghost predicate AllReadable(get: Getter, cid: Cid, depth: Option<nat>) {
    forall path :: !Broken(get, cid, depth, path)
  }

  // What holds of every parsed node: its links are kept in a std::map.
  ghost predicate Mapped(get: Getter) {
    forall c :: get(c).Ok? ==> Ascending(LexLess, get(c).value.links)
  }

  ghost predicate DescendsAt(get: Getter, c: Cid, rank: Cid -> nat) {
    get(c).Ok? ==> forall e | e in get(c).value.links :: rank(e.value.cid) < rank(c)
  }

  // Below cid links lead to nodes of smaller rank: the graph has no cycle there. In a
  // content-addressed store none has.
  ghost predicate Descends(get: Getter, cid: Cid, rank: Cid -> nat) {
    forall path :: Target(get, cid, path).Some? ==> DescendsAt(get, Target(get, cid, path).value, rank)
  }

  ghost predicate AllDescend(get: Getter, links: seq<Entry<Link>>, rank: Cid -> nat) {
    forall e | e in links :: Descends(get, e.value.cid, rank)
  }

  lemma TargetBelow(get: Getter, cid: Cid, node: Node, i: nat, path: seq<Name>)
    requires get(cid) == Ok(node) && Ascending(LexLess, node.links) && i < |node.links|
    ensures Target(get, cid, [node.links[i].key] + path) == Target(get, node.links[i].value.cid, path)
  {
    FoundAt(node.links, i);
    assert ([node.links[i].key] + path)[1..] == path;
  }

  lemma ChildDescends(get: Getter, cid: Cid, node: Node, rank: Cid -> nat, i: nat)
    requires Descends(get, cid, rank) && get(cid) == Ok(node) && Ascending(LexLess, node.links) && i < |node.links|
    ensures Descends(get, node.links[i].value.cid, rank)
  {
    var child := node.links[i].value.cid;
    forall path | Target(get, child, path).Some?
      ensures DescendsAt(get, Target(get, child, path).value, rank)
    {
      TargetBelow(get, cid, node, i, path);
    }
  }

  lemma DescendsBelow(get: Getter, cid: Cid, node: Node, rank: Cid -> nat)
    requires Descends(get, cid, rank) && get(cid) == Ok(node) && Ascending(LexLess, node.links)
    ensures AllDescend(get, node.links, rank)
    ensures forall e | e in node.links :: rank(e.value.cid) < rank(cid)
  {
    var here: seq<Name> := [];
    assert Target(get, cid, here) == Some(cid);
    forall e | e in node.links
      ensures Descends(get, e.value.cid, rank)
    {
      var i :| 0 <= i < |node.links| && node.links[i] == e;
      ChildDescends(get, cid, node, rank, i);
    }
  }

  // ---------------------------------------------------------------- leaves

  class Leaf {
    const content: seq<byte>
    var children: map<Name, Tree>

    constructor (data: seq<byte>)
      ensures content == data && children == map[]
    {
      content, children := data, map[];
    }

    function Value(): Tree
      reads this
    {
      Tree(content, children)
    }

    // The child that hangs at the name: what a path that begins with the name leads to.
    method SubLeaf(name: Name) returns (r: Option<Tree>)
      ensures r.Some? <==> TreeAt(Value(), [name]).Some?
      ensures r.Some? ==> forall path :: TreeAt(Value(), [name] + path) == TreeAt(r.value, path)
    {
      ChildIsThere(Value(), name);
      if name in children {
        forall path ensures TreeAt(Value(), [name] + path) == TreeAt(children[name], path) {
          assert ([name] + path)[1..] == path;
        }
        return Some(children[name]);
      }
      r := None;
    }

    // A name that is taken keeps its leaf.
    method InsertSubLeaf(name: Name, child: Tree) returns (r: Result<(), ServiceError>)
      modifies this
      ensures if name in old(children) then r == Err(DuplicateLeaf) && children == old(children)
              else r == Ok(()) && children == old(children)[name := child]
    {
      if name in children {
        return Err(DuplicateLeaf);
      }
      children := children[name := child];
      r := Ok(());
    }
  }

  // ---------------------------------------------------------------- fetching

  // The depth left below a link.
  function Deeper(maxDepth: Option<nat>, depth: nat): Option<nat> {
    if maxDepth == None then None
    else if depth <= maxDepth.value then Some(maxDepth.value - depth)
    else Some(0)
  }

  // Exactly the first i links have children.
  ghost predicate NamesDone(links: seq<Entry<Link>>, i: nat, children: map<Name, Tree>)
    requires i <= |links|
  {
    (forall k | 0 <= k < i :: links[k].key in children) &&
    forall name | name in children :: exists k | 0 <= k < i :: links[k].key == name
  }

  // The children made from the first i links.
  ghost predicate ChildrenDone(get: Getter, links: seq<Entry<Link>>, i: nat, left: Option<nat>,
                               children: map<Name, Tree>)
    requires i <= |links|
  {
    NamesDone(links, i, children) &&
    forall k | 0 <= k < i && links[k].key in children ::
      IsUnfolding(get, links[k].value.cid, left, children[links[k].key])
  }

  // Recursion is bounded by the depth, or by the rank of the links when there is no depth.
  ghost predicate Bounded(links: seq<Entry<Link>>, maxDepth: Option<nat>, depth: nat, rank: Cid -> nat, fuel: nat) {
    if maxDepth.Some? then depth <= maxDepth.value && fuel == maxDepth.value - depth
    else forall e | e in links :: rank(e.value.cid) < fuel
  }

  // Fills a leaf from the links of its node. An error comes with a path to a node that
  // cannot be read.
  method BuildGraph(get: Getter, root: Leaf, links: seq<Entry<Link>>, maxDepth: Option<nat>, depth: nat,
                    ghost rank: Cid -> nat, ghost fuel: nat)
    returns (r: Result<(), ServiceError>, ghost bad: seq<Name>)
    requires Mapped(get) && Ascending(LexLess, links) && root.children == map[]
    requires maxDepth == None ==> AllDescend(get, links, rank)
    requires Bounded(links, maxDepth, depth, rank, fuel)
    modifies root
    ensures r.Err? ==> r.error == UnresolvedLink && BrokenLink(get, links, maxDepth, depth, bad)
    ensures r.Ok? ==>
              if Deeper(maxDepth, depth) == Some(0) then root.children == map[]
              else ChildrenDone(get, links, |links|, Deeper(maxDepth, depth + 1), root.children)
    decreases fuel, 1
  {
    bad := [];
    if maxDepth.Some? && depth == maxDepth.value {
      return Ok(()), [];
    }
    for i := 0 to |links|
      invariant ChildrenDone(get, links, i, Deeper(maxDepth, depth + 1), root.children)
    {
      var child, below := BuildChild(get, links, i, maxDepth, depth, rank, fuel);
      if child.Err? {
        return Err(child.error), below;
      }
      ChildAdded(get, links, i, Deeper(maxDepth, depth + 1), root.children, child.value);
      var inserted := root.InsertSubLeaf(links[i].key, child.value);
      if inserted.Err? {
        return inserted, [];
      }
    }
    r := Ok(());
  }

  // The body of the loop over the links: the leaf of one child.
  method BuildChild(get: Getter, links: seq<Entry<Link>>, i: nat, maxDepth: Option<nat>, depth: nat,
                    ghost rank: Cid -> nat, ghost fuel: nat)
    returns (r: Result<Tree, ServiceError>, ghost bad: seq<Name>)
    requires Mapped(get) && Ascending(LexLess, links) && i < |links| && Deeper(maxDepth, depth) != Some(0)
    requires maxDepth == None ==> AllDescend(get, links, rank)
    requires Bounded(links, maxDepth, depth, rank, fuel)
    ensures r.Err? ==> r.error == UnresolvedLink && BrokenLink(get, links, maxDepth, depth, bad)
    ensures r.Ok? ==> IsUnfolding(get, links[i].value.cid, Deeper(maxDepth, depth + 1), r.value)
    decreases fuel, 0
  {
    var link := links[i];
    var request := get(link.value.cid);
    if request.Err? {
      LinkUnreadable(get, links, i, maxDepth, depth);
      return Err(UnresolvedLink), [link.key];
    }
    var node := request.value;
    var child := new Leaf(node.content);
    ghost var fuel' := LessFuel(get, links, i, node, maxDepth, depth, rank, fuel);
    var result, below := BuildGraph(get, child, node.links, maxDepth, depth + 1, rank, fuel');
    if result.Err? {
      LinkBroken(get, links, i, node, maxDepth, depth, below);
      return Err(result.error), [link.key] + below;
    }
    bad := [];
    Unfolded(get, link.value.cid, node, maxDepth, depth + 1, child.Value());
    r := Ok(child.Value());
  }

  lemma LessFuel(get: Getter, links: seq<Entry<Link>>, i: nat, node: Node, maxDepth: Option<nat>, depth: nat,
                 rank: Cid -> nat, fuel: nat) returns (less: nat)
    requires i < |links| && get(links[i].value.cid) == Ok(node) && Ascending(LexLess, node.links)
    requires Deeper(maxDepth, depth) != Some(0) && (maxDepth == None ==> AllDescend(get, links, rank))
    requires Bounded(links, maxDepth, depth, rank, fuel)
    ensures less < fuel && Bounded(node.links, maxDepth, depth + 1, rank, less)
    ensures maxDepth == None ==> AllDescend(get, node.links, rank)
  {
    assert links[i] in links;
    if maxDepth == None {
      DescendsBelow(get, links[i].value.cid, node, rank);
    }
    less := if maxDepth.Some? then fuel - 1 else rank(links[i].value.cid);
  }

  // A path of names from these links to a node that cannot be read.
  predicate BrokenLink(get: Getter, links: seq<Entry<Link>>, maxDepth: Option<nat>, depth: nat, bad: seq<Name>) {
    bad != [] && Lookup(links, bad[0]).Some? && Deeper(maxDepth, depth) != Some(0) &&
    Broken(get, Lookup(links, bad[0]).value.cid, Deeper(maxDepth, depth + 1), bad[1..])
  }

  lemma LinkUnreadable(get: Getter, links: seq<Entry<Link>>, i: nat, maxDepth: Option<nat>, depth: nat)
    requires Ascending(LexLess, links) && i < |links| && Deeper(maxDepth, depth) != Some(0)
    requires get(links[i].value.cid).Err?
    ensures BrokenLink(get, links, maxDepth, depth, [links[i].key])
  {
    FoundAt(links, i);
  }

  lemma LinkBroken(get: Getter, links: seq<Entry<Link>>, i: nat, node: Node, maxDepth: Option<nat>, depth: nat,
                   below: seq<Name>)
    requires Ascending(LexLess, links) && i < |links| && Deeper(maxDepth, depth) != Some(0)
    requires get(links[i].value.cid) == Ok(node) && BrokenLink(get, node.links, maxDepth, depth + 1, below)
    ensures BrokenLink(get, links, maxDepth, depth, [links[i].key] + below)
  {
    FoundAt(links, i);
    assert ([links[i].key] + below)[1..] == below;
  }

  lemma NameAdded(links: seq<Entry<Link>>, i: nat, children: map<Name, Tree>, t: Tree)
    requires i < |links| && Ascending(LexLess, links) && NamesDone(links, i, children)
    ensures links[i].key !in children
    ensures NamesDone(links, i + 1, children[links[i].key := t])
  {
    FoundAt(links, i);
    var more := children[links[i].key := t];
    forall name | name in more
      ensures exists k | 0 <= k < i + 1 :: links[k].key == name
    {
      NameIsDone(links, i, children, name);
    }
  }

  lemma NameIsDone(links: seq<Entry<Link>>, i: nat, children: map<Name, Tree>, name: Name)
    requires i < |links| && NamesDone(links, i, children) && (name == links[i].key || name in children)
    ensures exists k | 0 <= k < i + 1 :: links[k].key == name
  {
    if name == links[i].key {
      assert links[i].key == name;
    } else {
      var k :| 0 <= k < i && links[k].key == name;
    }
  }

  lemma ChildStays(get: Getter, links: seq<Entry<Link>>, i: nat, left: Option<nat>, children: map<Name, Tree>,
                   t: Tree, k: nat)
    requires k <= i < |links| && NamesDone(links, i, children) && links[i].key !in children
    requires if k == i then IsUnfolding(get, links[k].value.cid, left, t)
             else links[k].key in children && IsUnfolding(get, links[k].value.cid, left, children[links[k].key])
    ensures IsUnfolding(get, links[k].value.cid, left, children[links[i].key := t][links[k].key])
  {
    if k < i {
      assert children[links[i].key := t][links[k].key] == children[links[k].key];
    }
  }

  lemma ChildAdded(get: Getter, links: seq<Entry<Link>>, i: nat, left: Option<nat>, children: map<Name, Tree>, t: Tree)
    requires i < |links| && Ascending(LexLess, links)
    requires ChildrenDone(get, links, i, left, children) && IsUnfolding(get, links[i].value.cid, left, t)
    ensures links[i].key !in children
    ensures ChildrenDone(get, links, i + 1, left, children[links[i].key := t])
  {
    NameAdded(links, i, children, t);
    var more := children[links[i].key := t];
    forall k | 0 <= k < i + 1
      ensures IsUnfolding(get, links[k].value.cid, left, more[links[k].key])
    {
      ChildStays(get, links, i, left, children, t, k);
    }
  }

  lemma FoundAt(links: seq<Entry<Link>>, i: nat)
    requires Ascending(LexLess, links) && i < |links|
    ensures Lookup(links, links[i].key) == Some(links[i].value)
    ensures forall k | 0 <= k < i :: links[k].key != links[i].key
  {
    LexStrictTotal();
    LookupAt(LexLess, links, i);
  }

  // A leaf whose children are done is the unfolding of its node.
  lemma Unfolded(get: Getter, cid: Cid, node: Node, maxDepth: Option<nat>, depth: nat, t: Tree)
    requires get(cid) == Ok(node) && t.content == node.content && Ascending(LexLess, node.links)
    requires if Deeper(maxDepth, depth) == Some(0) then t.children == map[]
             else ChildrenDone(get, node.links, |node.links|, Deeper(maxDepth, depth + 1), t.children)
    ensures IsUnfolding(get, cid, Deeper(maxDepth, depth), t)
  {
    forall path
      ensures Agrees(get, cid, Deeper(maxDepth, depth), t, path)
    {
      UnfoldedAt(get, cid, node, maxDepth, depth, t, path);
    }
  }

  lemma UnfoldedAt(get: Getter, cid: Cid, node: Node, maxDepth: Option<nat>, depth: nat, t: Tree, path: seq<Name>)
    requires get(cid) == Ok(node) && t.content == node.content && Ascending(LexLess, node.links)
    requires if Deeper(maxDepth, depth) == Some(0) then t.children == map[]
             else ChildrenDone(get, node.links, |node.links|, Deeper(maxDepth, depth + 1), t.children)
    ensures Agrees(get, cid, Deeper(maxDepth, depth), t, path)
  {
    if path != [] && Deeper(maxDepth, depth) != Some(0) {
      UnfoldedBelow(get, node.links, Deeper(maxDepth, depth + 1), t.children, path[0], path[1..]);
    }
  }

  lemma UnfoldedBelow(get: Getter, links: seq<Entry<Link>>, left: Option<nat>, children: map<Name, Tree>,
                      name: Name, rest: seq<Name>)
    requires Ascending(LexLess, links) && ChildrenDone(get, links, |links|, left, children)
    ensures name in children <==> Lookup(links, name).Some?
    ensures name in children ==> Agrees(get, Lookup(links, name).value.cid, left, children[name], rest)
  {
    if name in children {
      var k :| 0 <= k < |links| && links[k].key == name;
      FoundAt(links, k);
      assert IsUnfolding(get, links[k].value.cid, left, children[name]);
    }
    if Lookup(links, name).Some? {
      var k :| 0 <= k < |links| && links[k].key == name;
    }
  }

  // The graph below a node, cut at `depth` links if a depth is given. It succeeds exactly
  // when every node within reach can be read, and then it is the unfolding.
  method FetchGraphOnDepth(get: Getter, cid: Cid, depth: Option<nat>, ghost rank: Cid -> nat)
    returns (r: Result<Tree, ServiceError>)
    requires Mapped(get) && (depth == None ==> Descends(get, cid, rank))
    ensures r.Ok? <==> AllReadable(get, cid, depth)
    ensures r.Ok? ==> IsUnfolding(get, cid, depth, r.value)
    ensures r.Err? ==> r.error == if get(cid).Err? then get(cid).error else UnresolvedLink
  {
    var node := get(cid);
    if node.Err? {
      assert Broken(get, cid, depth, []);
      return Err(node.error);
    }
    var leaf := new Leaf(node.value.content);
    ghost var fuel := if depth.Some? then depth.value else rank(cid);
    if depth == None {
      DescendsBelow(get, cid, node.value, rank);
    }
    var result, bad := BuildGraph(get, leaf, node.value.links, depth, 0, rank, fuel);
    if result.Err? {
      BrokenRoot(get, cid, node.value, depth, bad);
      return Err(result.error);
    }
    Unfolded(get, cid, node.value, depth, 0, leaf.Value());
    UnfoldingIsReadable(get, cid, depth, leaf.Value());
    r := Ok(leaf.Value());
  }

  lemma BrokenRoot(get: Getter, cid: Cid, node: Node, depth: Option<nat>, bad: seq<Name>)
    requires get(cid) == Ok(node) && BrokenLink(get, node.links, depth, 0, bad)
    ensures !AllReadable(get, cid, depth)
  {
    assert Broken(get, cid, depth, bad);
  }

  // An unfolding leaves no broken path out.
  lemma UnfoldingIsReadable(get: Getter, cid: Cid, depth: Option<nat>, t: Tree)
    requires IsUnfolding(get, cid, depth, t)
    ensures AllReadable(get, cid, depth)
  {
    forall path ensures !Broken(get, cid, depth, path) {
      assert Agrees(get, cid, depth, t, path);
    }
  }

  lemma ChildIsThere(t: Tree, name: Name)
    ensures TreeAt(t, [name]).Some? <==> name in t.children
  {
    if name in t.children {
      assert TreeAt(t, [name]) == TreeAt(t.children[name], [name][1..]);
      assert |[name][1..]| == 0;
    }
  }

  lemma {:induction false} SameTrees(t: Tree, u: Tree)
    requires forall path :: TreeAt(t, path) == TreeAt(u, path)
    ensures t == u
    decreases t
  {
    var here: seq<Name> := [];
    assert TreeAt(t, here) == TreeAt(u, here);
    forall name: Name ensures name in t.children <==> name in u.children {
      assert TreeAt(t, [name]) == TreeAt(u, [name]);
      ChildIsThere(t, name);
      ChildIsThere(u, name);
    }
    forall name: Name | name in t.children ensures t.children[name] == u.children[name] {
      forall path: seq<Name> ensures TreeAt(t.children[name], path) == TreeAt(u.children[name], path) {
        assert ([name] + path)[1..] == path;
        assert TreeAt(t, [name] + path) == TreeAt(u, [name] + path);
      }
      SameTrees(t.children[name], u.children[name]);
    }
    assert t.children == u.children;
  }

  // There is no other tree than the one that is fetched.
  lemma UnfoldingIsUnique(get: Getter, cid: Cid, depth: Option<nat>, t: Tree, u: Tree)
    requires IsUnfolding(get, cid, depth, t) && IsUnfolding(get, cid, depth, u)
    ensures t == u
  {
    forall path: seq<Name> ensures TreeAt(t, path) == TreeAt(u, path) {
      assert Agrees(get, cid, depth, t, path) && Agrees(get, cid, depth, u, path);
    }
    SameTrees(t, u);
  }

  // --------------------------------------------------------------- selection

  // The nodes behind the first n links, if all can be read.
  function ReadLinks(get: Getter, links: seq<Entry<Link>>, n: nat): (ns: Option<seq<Node>>)
    requires n <= |links|
    ensures ns.Some? ==> |ns.value| == n
  {
    if n == 0 then Some([])
    else match ReadLinks(get, links, n - 1)
      case None => None
      case Some(ns) => if get(links[n - 1].value.cid).Ok? then Some(ns + [get(links[n - 1].value.cid).value]) else None
  }

  // A handler is offered a node and its direct children until it refuses one. The nodes
  // it was offered are returned; the code returns their number, which is never zero.
  method Select(get: Getter, cid: Cid, accepts: Node -> bool) returns (r: Result<seq<Node>, ServiceError>)
    ensures match get(cid)
            case Err(e) => r == Err(e)
            case Ok(root) =>
              match ReadLinks(get, root.links, |root.links|)
              case None => r == Err(UnresolvedLink)
              case Some(ns) =>
                r.Ok? && 0 < |r.value| && r.value <= [root] + ns &&
                (forall i | 0 <= i < |r.value| - 1 :: accepts(r.value[i])) &&
                (r.value != [root] + ns ==> !accepts(r.value[|r.value| - 1]))
  {
    var root := get(cid);
    if root.Err? {
      return Err(root.error);
    }
    var links := root.value.links;
    var nodes := [];
    for n := 0 to |links|
      invariant ReadLinks(get, links, n) == Some(nodes)
    {
      var request := get(links[n].value.cid);
      if request.Err? {
        StaysUnread(get, links, n + 1, |links|);
        return Err(UnresolvedLink);
      }
      nodes := nodes + [request.value];
    }
    nodes := [root.value] + nodes;
    var sent := 0;
    while sent < |nodes|
      invariant sent <= |nodes| && forall i | 0 <= i < sent :: accepts(nodes[i])
    {
      sent := sent + 1;
      if !accepts(nodes[sent - 1]) {
        break;
      }
    }
    r := Ok(nodes[..sent]);
  }

  lemma {:induction false} StaysUnread(get: Getter, links: seq<Entry<Link>>, n: nat, m: nat)
    requires n <= m <= |links| && ReadLinks(get, links, n) == None
    ensures ReadLinks(get, links, m) == None
    decreases m
  {
    if n < m {
      StaysUnread(get, links, n, m - 1);
    }
  }

  // ---------------------------------------------------------------- the service

  class MerkleDagService {
    var store: map<Cid, seq<byte>>

    constructor ()
      ensures store == map[]
    {
      store := map[];
    }

    function Get(): Getter
      reads this
    {
      GetFrom(store)
    }

    method AddNode(node: IPLDNodeImpl)
      requires node.Coherent()
      modifies this, node`ipldBlock
      ensures node.Coherent() && node.Value() == old(node.Value())
      ensures store == var b := BlockOf(node.H, Encoded(node.Value())); old(store)[b.cid := b.bytes]
    {
      var bytes := node.GetRawBytes();
      var cid := node.GetCID();
      store := store[cid := bytes];
    }

    method GetNode(cid: Cid) returns (r: Result<Node, ServiceError>)
      ensures r == Get()(cid)
      ensures cid !in store ==> r == Err(NotFound)
      ensures cid in store && Decoded(store[cid]).Ok? ==> r == Ok(Decoded(store[cid]).value)
      ensures cid in store && Decoded(store[cid]).Err? ==> r == Err(Malformed(Decoded(store[cid]).error))
    {
      if cid !in store {
        return Err(NotFound);
      }
      var node := CreateFromRawBytes(store[cid]);
      r := if node.Ok? then Ok(node.value) else Err(Malformed(node.error));
    }

    method FetchGraph(cid: Cid, depth: Option<nat>, ghost rank: Cid -> nat) returns (r: Result<Tree, ServiceError>)
      requires depth == None ==> Descends(Get(), cid, rank)
      ensures r.Ok? <==> AllReadable(Get(), cid, depth)
      ensures r.Ok? ==> IsUnfolding(Get(), cid, depth, r.value)
    {
      StoreIsMapped(store);
      r := FetchGraphOnDepth(Get(), cid, depth, rank);
    }
  }

  function GetFrom(store: map<Cid, seq<byte>>): Getter {
    cid =>
      if cid !in store then Err(NotFound)
      else match Decoded(store[cid])
        case Err(e) => Err(Malformed(e))
        case Ok(node) => Ok(node)
  }

  lemma StoreIsMapped(store: map<Cid, seq<byte>>)
    ensures Mapped(GetFrom(store))
  {
    forall c | GetFrom(store)(c).Ok?
      ensures Ascending(LexLess, GetFrom(store)(c).value.links)
    {
      DecodedIsOrdered(store[c]);
    }
  }

  // A node that was added is read back as it was, and keeps its CID.
  lemma AddThenGet(store: map<Cid, seq<byte>>, H: Hash, n: Node)
    requires Valid(n) && forall e | e in n.links :: IsCidV0(e.value.cid)
    ensures var b := BlockOf(H, Encoded(n));
            var r := GetFrom(store[b.cid := b.bytes])(b.cid);
            r == Ok(n) && BlockOf(H, Encoded(r.value)).cid == b.cid
  {
    NodeRoundTripIff(n);
  }
}
