/** Directory trees as finite maps from slash-separated relative paths to nodes; the root itself is the empty path. */
module FileTree {
  datatype Node =
    | Directory(uid: int, gid: int, perm: bv9)
    | File(uid: int, gid: int, perm: bv9, content: string)
    | Symlink(uid: int, gid: int, target: string)
    | Special(uid: int, gid: int)

  type Tree = map<string, Node>

  /** The permission bits 0o111 and 0o222. */
  const EXECUTE_BITS: bv9 := 0x49
  const WRITE_BITS: bv9 := 0x92

  predicate IsExecutable(perm: bv9) {
    perm & EXECUTE_BITS != 0
  }

  predicate IsWritable(perm: bv9) {
    perm & WRITE_BITS != 0
  }

  // ---------------------------------------------------------------- paths

  predicate IsName(name: string) {
    name != "" && '/' !in name
  }

  /** Strictly below a directory. */
  predicate Under(directory: string, path: string) {
    if directory == "" then path != "" else directory + "/" <= path
  }

  lemma UnderIsTransitive(a: string, b: string, c: string)
    requires Under(a, b) && Under(b, c)
    ensures Under(a, c)
  {
    if a != "" {
      assert b <= c;
    }
  }

  lemma UnderIsLonger(a: string, b: string)
    requires Under(a, b)
    ensures |a| < |b| && a != b
  {}

  /** An entry of a directory: its path is the directory's, a slash and a name. */
  predicate IsChild(directory: string, path: string) {
    if directory == "" then IsName(path) else directory + "/" <= path && IsName(path[|directory| + 1..])
  }

  /** Every path is an entry of the root or of a directory of the tree. */
  ghost predicate IsTree(tree: Tree) {
    forall p :: p in tree ==> exists d :: IsChild(d, p) && (d == "" || (d in tree && tree[d].Directory?))
  }

  function Below(tree: Tree, directory: string): (paths: set<string>)
    ensures paths <= tree.Keys
  {
    set p | p in tree && Under(directory, p)
  }

  /** A path and everything below it. */
  ghost function Subtree(tree: Tree, path: string): (paths: set<string>)
    ensures paths <= tree.Keys
  {
    set p | p in tree && (p == path || Under(path, p))
  }

  /** The entries of a directory, as a directory read lists them. */
  function Children(tree: Tree, directory: string): (paths: set<string>)
    ensures paths <= tree.Keys
  {
    set p | p in tree && IsChild(directory, p)
  }

  lemma ChildIsUnder(directory: string, path: string)
    requires IsChild(directory, path)
    ensures Under(directory, path)
  {}

  /** The parent of a path below a directory is that directory or below it. */
  lemma ParentStaysUnder(d: string, parent: string, p: string)
    requires Under(d, p) && IsChild(parent, p) && parent != d
    ensures Under(d, parent)
  {
    if d != "" {
      ChildIsUnder(parent, p);
      assert d == p[..|d|] && parent == p[..|parent|];
      assert p[|d|] == (d + "/")[|d|] == '/';
      SlashIsInParent(parent, p, |d|);
      if |d| < |parent| {
        assert parent[..|d| + 1] == p[..|d| + 1] == d + "/";
      }
    }
  }

  /** Each path below a directory is reached through one of its entries. */
  lemma {:induction false} ChildTowards(tree: Tree, d: string, p: string) returns (c: string)
    requires IsTree(tree) && p in tree && Under(d, p)
    ensures c in Children(tree, d) && p in Subtree(tree, c)
    decreases |p|
  {
    var parent :| IsChild(parent, p) && (parent == "" || (parent in tree && tree[parent].Directory?));
    if parent == d {
      c := p;
    } else {
      ParentStaysUnder(d, parent, p);
      ChildIsUnder(parent, p);
      UnderIsLonger(parent, p);
      c := ChildTowards(tree, d, parent);
      if parent != c {
        UnderIsTransitive(c, parent, p);
      }
    }
  }

  /** Different entries of a directory have nothing below them in common. */
  lemma SiblingsAreApart(d: string, a: string, b: string, p: string)
    requires IsChild(d, a) && IsChild(d, b) && a != b
    requires p == a || Under(a, p)
    ensures p != b && !Under(b, p)
  {
    if p == b || Under(b, p) {
      ChildIsUnder(d, a);
      ChildIsUnder(d, b);
      assert a == p[..|a|] && b == p[..|b|];
      NotNested(d, a, b, p);
      NotNested(d, b, a, p);
    }
  }

  /** The last slash of a path is the one after its parent. */
  lemma SlashIsInParent(d: string, b: string, i: nat)
    requires IsChild(d, b)
    ensures i < |b| && b[i] == '/' ==> i <= |d|
  {}

  lemma NotNested(d: string, a: string, b: string, p: string)
    requires IsChild(d, a) && IsChild(d, b)
    requires (p == a || Under(a, p)) && (p == b || Under(b, p))
    ensures |b| <= |a|
  {
    ChildIsUnder(d, a);
    UnderIsLonger(d, a);
    SlashIsInParent(d, b, |a|);
    if Under(a, p) {
      assert p[|a|] == (a + "/")[|a|];
    }
  }

  lemma ParentIsUnique(a: string, b: string, p: string)
    requires IsChild(a, p) && IsChild(b, p)
    ensures a == b
  {
    if a != b {
      ChildIsUnder(a, p);
      ChildIsUnder(b, p);
      ParentStaysUnder(a, b, p);
      ParentStaysUnder(b, a, p);
      UnderIsLonger(a, b);
      UnderIsLonger(b, a);
    }
  }

  /** Only directories have something below them. */
  lemma LeavesAreEmpty(tree: Tree, c: string)
    requires IsTree(tree) && c in tree && c != "" && !tree[c].Directory?
    ensures Below(tree, c) == {}
  {
    forall p | p in tree
      ensures !Under(c, p)
    {
      if Under(c, p) {
        var child := ChildTowards(tree, c, p);
        var parent :| IsChild(parent, child) && (parent == "" || (parent in tree && tree[parent].Directory?));
        ParentIsUnique(parent, c, child);
      }
    }
  }

  /** A subtree is its top and what is below it. */
  lemma SubtreeIsTopAndBelow(tree: Tree, c: string)
    requires c in tree
    ensures Subtree(tree, c) == {c} + Below(tree, c) && c !in Below(tree, c)
  {}

  /** What is below a directory is the subtrees of its entries. */
  lemma BelowIsSubtrees(tree: Tree, d: string, p: string)
    requires IsTree(tree) && p in tree
    ensures Under(d, p) <==> exists c :: c in Children(tree, d) && p in Subtree(tree, c)
  {
    if Under(d, p) {
      var c := ChildTowards(tree, d, p);
    }
    forall c | c in Children(tree, d) && p in Subtree(tree, c)
      ensures Under(d, p)
    {
      ChildIsUnder(d, c);
      if p != c {
        UnderIsTransitive(d, c, p);
      }
    }
  }

  // ---------------------------------------------------------------- totals

  function SizeOf(node: Node): nat {
    if node.File? then |node.content| else 0
  }

  /** The bytes of the files among some paths. */
  ghost function TotalSize(tree: Tree, paths: set<string>): nat
    requires paths <= tree.Keys
  {
    if paths == {} then
      0
    else
      var p :| p in paths;
      SizeOf(tree[p]) + TotalSize(tree, paths - {p})
  }

  lemma {:induction false} TotalSizePick(tree: Tree, paths: set<string>, p: string)
    requires paths <= tree.Keys && p in paths
    ensures TotalSize(tree, paths) == SizeOf(tree[p]) + TotalSize(tree, paths - {p})
  {
    var q :| q in paths && TotalSize(tree, paths) == SizeOf(tree[q]) + TotalSize(tree, paths - {q});
    if p != q {
      TotalSizePick(tree, paths - {q}, p);
      TotalSizePick(tree, paths - {p}, q);
      assert paths - {q} - {p} == paths - {p} - {q};
    }
  }

  lemma {:induction false} TotalSizeUnion(tree: Tree, a: set<string>, b: set<string>)
    requires a + b <= tree.Keys && a !! b
    ensures TotalSize(tree, a + b) == TotalSize(tree, a) + TotalSize(tree, b)
    ensures |a + b| == |a| + |b|
  {
    if a == {} {
      assert a + b == b;
    } else {
      var p :| p in a;
      TotalSizePick(tree, a, p);
      TotalSizePick(tree, a + b, p);
      assert a + b - {p} == (a - {p}) + b;
      TotalSizeUnion(tree, a - {p}, b);
    }
  }

  lemma TotalSizeMonotone(tree: Tree, a: set<string>, b: set<string>)
    requires a <= b <= tree.Keys
    ensures TotalSize(tree, a) <= TotalSize(tree, b) && |a| <= |b|
  {
    hide TotalSize;
    assert a + (b - a) == b;
    TotalSizeUnion(tree, a, b - a);
  }

  /** Any of the three execute or write permissions counts. */
  lemma PermissionBits(perm: bv9)
    ensures IsExecutable(perm) <==> perm & 0x40 != 0 || perm & 0x8 != 0 || perm & 0x1 != 0
    ensures IsWritable(perm) <==> perm & 0x80 != 0 || perm & 0x10 != 0 || perm & 0x2 != 0
  {}
}
