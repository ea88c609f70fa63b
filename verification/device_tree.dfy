/**
 * The tree-level helpers of the device-tree parser
 * (modules/axdtb/src/tree.rs): the magic-number check of `from_bytes`,
 * lookup of a node by a `/`-separated path, the breadth-first iterator over
 * all nodes, and the `InheritedValues` list of `(name, value)` pairs.
 *
 * Nodes are reduced to a name and their children: properties, the header
 * and the structure-block parser live in files this model does not include.
 * `find_child` is taken to return the first child with the given name.
 */
module DeviceTree {
  import opened Outcomes

  type byte = bv8

  /** A node of the tree: its name and its children, in order. */
  datatype Node = Node(name: string, children: seq<Node>)

  /** The number of nodes in the subtree of `n`, `n` included. */
  function Size(n: Node): nat
    decreases n
  {
    1 + SizeAll(n.children)
  }

  /** The number of nodes in the subtrees of `ns`. */
  function SizeAll(ns: seq<Node>): nat
    decreases ns
  {
    if ns == [] then 0 else Size(ns[0]) + SizeAll(ns[1..])
  }

  /** Sizes add up over concatenation. */
  lemma {:induction false} SizeAllAppend(a: seq<Node>, b: seq<Node>)
    ensures SizeAll(a + b) == SizeAll(a) + SizeAll(b)
    decreases |a|
  {
    if a != [] {
      assert (a + b)[0] == a[0] && (a + b)[1..] == a[1..] + b;
      SizeAllAppend(a[1..], b);
    } else {
      assert a + b == b;
    }
  }

  // ----- from_bytes --------------------------------------------------------------

  const MAGIC: seq<byte> := [0xd0, 0x0d, 0xfe, 0xed]

  datatype TreeError = InvalidMagicNumber | Malformed

  /** What `from_bytes` comes to: a tree, an error, or a panic. */
  datatype Parsed = Parsed(root: Node) | Failed(error: TreeError) | Panic

  /**
   * `from_bytes`: slicing the first four bytes panics on a shorter blob; a
   * blob not starting with the magic number is rejected; otherwise the
   * result is whatever the header and structure parsers make of it, given
   * here as `parse`.
   */
  function FromBytes(data: seq<byte>, parse: Result<Node, TreeError>): (r: Parsed)
    ensures r.Panic? <==> |data| < 4
    ensures r == Failed(InvalidMagicNumber) <==> (|data| >= 4 && data[..4] != MAGIC) || (|data| >= 4 && parse == Err(InvalidMagicNumber))
    ensures r.Parsed? ==> |data| >= 4 && data[..4] == MAGIC && parse == Ok(r.root)
  {
    if |data| < 4 then Panic
    else if data[..4] != MAGIC then Failed(InvalidMagicNumber)
    else match parse
      case Ok(root) => Parsed(root)
      case Err(e) => Failed(e)
  }

  // ----- paths -------------------------------------------------------------------

  /** The index of the first `/` in `s`, if any. */
  function FirstSlash(s: string): (r: Option<nat>)
    ensures r.None? <==> '/' !in s
    ensures r.Some? ==> r.value < |s| && s[r.value] == '/' && '/' !in s[..r.value]
  {
    if s == [] then None
    else if s[0] == '/' then Some(0)
    else match FirstSlash(s[1..])
      case None => None
      case Some(i) =>
        assert s[..i + 1] == [s[0]] + s[1..][..i];
        Some(i + 1)
  }

  /** `str::split('/')`: the pieces between slashes, always at least one. */
  function Split(s: string): (r: seq<string>)
    decreases |s|
    ensures |r| >= 1
    ensures forall k :: 0 <= k < |r| ==> '/' !in r[k]
  {
    match FirstSlash(s)
      case None => [s]
      case Some(i) => [s[..i]] + Split(s[i + 1..])
  }

  /** The pieces joined back with `/` between them. */
  function Join(pieces: seq<string>): (r: string)
    requires |pieces| >= 1
    decreases |pieces|
  {
    if |pieces| == 1 then pieces[0] else pieces[0] + "/" + Join(pieces[1..])
  }

  /** Splitting and joining gives the path back. */
  lemma {:induction false} JoinSplit(s: string)
    ensures Join(Split(s)) == s
    decreases |s|
  {
    match FirstSlash(s)
      case None =>
      case Some(i) =>
        var rest := Split(s[i + 1..]);
        assert Split(s) == [s[..i]] + rest;
        JoinCons(s[..i], rest);
        JoinSplit(s[i + 1..]);
        assert s == s[..i] + "/" + s[i + 1..];
  }

  lemma JoinCons(head: string, rest: seq<string>)
    requires |rest| >= 1
    ensures Join([head] + rest) == head + "/" + Join(rest)
  {
    assert ([head] + rest)[1..] == rest;
  }

  /** Joining pieces without slashes and splitting gives the pieces back. */
  lemma {:induction false} SplitJoin(pieces: seq<string>)
    requires |pieces| >= 1 && forall k :: 0 <= k < |pieces| ==> '/' !in pieces[k]
    ensures Split(Join(pieces)) == pieces
    decreases |pieces|
  {
    if |pieces| > 1 {
      var s := Join(pieces);
      var head := pieces[0];
      assert s == head + "/" + Join(pieces[1..]);
      FirstSlashAfter(head, Join(pieces[1..]));
      assert s[..|head|] == head && s[|head| + 1..] == Join(pieces[1..]);
      SplitJoin(pieces[1..]);
    }
  }

  /** In `head + "/" + tail` with no slash in `head`, the first slash follows `head`. */
  lemma FirstSlashAfter(head: string, tail: string)
    requires '/' !in head
    ensures FirstSlash(head + "/" + tail) == Some(|head|)
  {
    var s := head + "/" + tail;
    assert s[|head|] == '/';
    var i := FirstSlash(s).value;
    assert i == |head| by {
      assert forall j :: 0 <= j < |head| ==> s[j] == head[j];
      assert forall j :: 0 <= j < i ==> s[..i][j] == s[j];
    }
  }

  /** `find_child`: the first child named `name`. */
  function FindChild(n: Node, name: string): (r: Option<Node>)
    ensures r.Some? <==> exists k :: 0 <= k < |n.children| && n.children[k].name == name
    ensures r.Some? ==> r.value in n.children && r.value.name == name
  {
    match FirstNamed(n.children, name)
      case None => None
      case Some(k) => Some(n.children[k])
  }

  /** The index of the first node of `ns` named `name`. */
  function FirstNamed(ns: seq<Node>, name: string): (r: Option<nat>)
    ensures r.None? <==> forall k :: 0 <= k < |ns| ==> ns[k].name != name
    ensures r.Some? ==> (r.value < |ns| && ns[r.value].name == name
      && forall j :: 0 <= j < r.value ==> ns[j].name != name)
  {
    if ns == [] then None
    else if ns[0].name == name then Some(0)
    else match FirstNamed(ns[1..], name)
      case None => None
      case Some(k) => Some(k + 1)
  }

  /** Follow `names` downwards from `n`, one child at a time; `None` at the first missing one. */
  function Walk(n: Node, names: seq<string>): (r: Option<Node>)
    decreases |names|
  {
    if names == [] then Some(n)
    else match FindChild(n, names[0])
      case None => None
      case Some(c) => Walk(c, names[1..])
  }

  /** Walking a concatenation is walking the first part and then the second from where it ends. */
  lemma {:induction false} WalkAppend(n: Node, a: seq<string>, b: seq<string>)
    ensures Walk(n, a + b) == match Walk(n, a) case None => None case Some(m) => Walk(m, b)
    decreases |a|
  {
    if a != [] {
      assert (a + b)[0] == a[0] && (a + b)[1..] == a[1..] + b;
      match FindChild(n, a[0])
        case None =>
          assert Walk(n, a + b) == None;
        case Some(c) =>
          assert Walk(n, a + b) == Walk(c, a[1..] + b);
          WalkAppend(c, a[1..], b);
    } else {
      assert a + b == b;
    }
  }

  /** `find_node`: a path whose first piece is empty is walked from the root; any other is `None`. */
  function FindNode(root: Node, path: string): (r: Option<Node>)
    ensures path != [] && path[0] != '/' ==> r.None?
    ensures path == [] ==> r == Some(root)
  {
    var pieces := Split(path);
    NoLeadingSlash(path);
    if pieces[0] == "" then Walk(root, pieces[1..]) else None
  }

  /** A path that does not start with `/` has a non-empty first piece. */
  lemma NoLeadingSlash(path: string)
    ensures path != [] && path[0] != '/' ==> Split(path)[0] != ""
  {
    match FirstSlash(path)
      case None =>
      case Some(i) =>
  }

  /** `/a/b/c` is found by walking `a`, `b`, `c` from the root. */
  lemma FindNodeWalks(root: Node, names: seq<string>)
    requires forall k :: 0 <= k < |names| ==> '/' !in names[k]
    ensures FindNode(root, Join([""] + names)) == Walk(root, names)
  {
    SplitJoin([""] + names);
    assert ([""] + names)[1..] == names;
  }

  /** The path `/` asks the root for a child with the empty name; it is not the root itself. */
  lemma FindNodeSlash(root: Node)
    ensures FindNode(root, "/") == FindChild(root, "")
  {
    FindNodeWalks(root, [""]);
    assert Join([""] + [""]) == "/";
  }

  // ----- the iterator ------------------------------------------------------------

  /**
   * The nodes the iterator yields from queue `q`: pop the front, yield it,
   * and push its children to the back.
   */
  function Bfs(q: seq<Node>): (r: seq<Node>)
    decreases SizeAll(q)
    ensures |r| == SizeAll(q)
  {
    if q == [] then []
    else
      var n := q[0];
      var rest := if |n.children| > 0 then q[1..] + n.children else q[1..];
      SizeAllAppend(q[1..], n.children);
      [n] + Bfs(rest)
  }

  /** All the children of the nodes of `q`, in order. */
  function ChildrenOf(q: seq<Node>): (r: seq<Node>)
    ensures SizeAll(q) == |q| + SizeAll(r)
  {
    if q == [] then []
    else
      SizeAllAppend(q[0].children, ChildrenOf(q[1..]));
      q[0].children + ChildrenOf(q[1..])
  }

  /** Draining `q` and then `r` yields `q` and then what `r` followed by the children of `q` yields. */
  lemma {:induction false} BfsAppend(q: seq<Node>, r: seq<Node>)
    ensures Bfs(q + r) == q + Bfs(r + ChildrenOf(q))
    decreases |q|
  {
    if q != [] {
      var n := q[0];
      assert (q + r)[0] == n && (q + r)[1..] + n.children == q[1..] + (r + n.children);
      var rest := if |n.children| > 0 then (q + r)[1..] + n.children else (q + r)[1..];
      assert rest == q[1..] + (r + n.children) by {
        if |n.children| == 0 {
          assert n.children == [] && r + n.children == r;
        }
      }
      assert Bfs(q + r) == [n] + Bfs(q[1..] + (r + n.children));
      BfsAppend(q[1..], r + n.children);
      assert r + n.children + ChildrenOf(q[1..]) == r + ChildrenOf(q);
      assert [n] + (q[1..] + Bfs(r + ChildrenOf(q))) == q + Bfs(r + ChildrenOf(q));
    } else {
      assert q + r == r && r + ChildrenOf(q) == r;
    }
  }

  /** Breadth-first order: a queue is yielded whole, then everything one level further down. */
  lemma BfsLevels(q: seq<Node>)
    ensures Bfs(q) == q + Bfs(ChildrenOf(q))
  {
    BfsAppend(q, []);
    assert q + [] == q && [] + ChildrenOf(q) == ChildrenOf(q);
  }

  /** Iterating a tree yields the root first, then its children in order, and every node once by count. */
  lemma IterRootFirst(root: Node)
    ensures var it := Bfs([root]);
      && |it| == Size(root) && |it| > |root.children| && it[0] == root
      && it[1..1 + |root.children|] == root.children
  {
    BfsLevels([root]);
    BfsLevels(root.children);
    assert ChildrenOf([root]) == root.children;
  }

  // ----- InheritedValues ---------------------------------------------------------

  /** `InheritedValues`: `(name, value)` pairs in insertion order. */
  type Inherited = seq<(string, bv64)>

  /** `InheritedValues::new`. */
  function NewInherited(): (r: Inherited)
    ensures forall name :: Find(r, name).None?
  {
    []
  }

  /** `find`: the value of the earliest entry named `name`. */
  function Find(iv: Inherited, name: string): (r: Option<bv64>)
    ensures r.None? <==> forall k :: 0 <= k < |iv| ==> iv[k].0 != name
    ensures r.Some? ==> exists k :: (0 <= k < |iv| && iv[k] == (name, r.value)
      && forall j :: 0 <= j < k ==> iv[j].0 != name)
  {
    match FirstEntry(iv, name)
      case None => None
      case Some(k) => Some(iv[k].1)
  }

  /** The index of the earliest entry named `name`. */
  function FirstEntry(iv: Inherited, name: string): (r: Option<nat>)
    ensures r.None? <==> forall k :: 0 <= k < |iv| ==> iv[k].0 != name
    ensures r.Some? ==> (r.value < |iv| && iv[r.value].0 == name
      && forall j :: 0 <= j < r.value ==> iv[j].0 != name)
  {
    if iv == [] then None
    else if iv[0].0 == name then Some(0)
    else match FirstEntry(iv[1..], name)
      case None => None
      case Some(k) => Some(k + 1)
  }

  /** `insert`: append an entry. */
  function Insert(iv: Inherited, name: string, value: bv64): (r: Inherited)
    ensures |r| == |iv| + 1 && r[..|iv|] == iv && r[|iv|] == (name, value)
  {
    iv + [(name, value)]
  }

  /** Appending an entry changes the first entry of a name only if that name had none. */
  lemma FirstEntryAppend(iv: Inherited, e: (string, bv64), name: string)
    ensures FirstEntry(iv + [e], name) ==
      if FirstEntry(iv, name).Some? then FirstEntry(iv, name)
      else if e.0 == name then Some(|iv|) else None
  {
    var t := iv + [e];
    assert forall k :: 0 <= k < |iv| ==> t[k] == iv[k];
    assert t[|iv|] == e;
  }

  /**
   * After `insert(name, value)`, `find(name)` is `value` exactly when no
   * earlier entry has that name (otherwise the earlier value stays), and
   * every other name finds what it found before.
   */
  lemma InsertThenFind(iv: Inherited, name: string, value: bv64, other: string)
    ensures Find(iv, name).None? ==> Find(Insert(iv, name, value), name) == Some(value)
    ensures Find(iv, name).Some? ==> Find(Insert(iv, name, value), name) == Find(iv, name)
    ensures other != name ==> Find(Insert(iv, name, value), other) == Find(iv, other)
  {
    var t := Insert(iv, name, value);
    FirstEntryAppend(iv, (name, value), name);
    FirstEntryAppend(iv, (name, value), other);
    assert forall k :: 0 <= k < |iv| ==> t[k] == iv[k];
  }
}
