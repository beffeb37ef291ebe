/** The file tree of an extracted repository archive (`build_file_tree` in
    Backend/repo_handler.py).

    The walk of the extracted folder is an input: the sequence of
    (relative path parts, file names) pairs that `os.walk` yields. The Python
    builds a nested dict in place through a cursor `current` that aliases some
    dict inside `tree`; here the tree is a `Node` value and the cursor is the
    PATH from the root to the node it aliases, so a write through the cursor is
    an update of the tree at that path. */
module FileTree {
  import opened Wrappers

  /** A file (the Python `None` leaf) or a directory (a nested dict). */
  datatype Node = File | Dir(children: map<string, Node>)

  /** One item of `os.walk(root)`: the directory's path relative to the root,
      split on the separator (`["."]` for the root itself), and the names of
      the files directly inside it. */
  datatype WalkEntry = WalkEntry(parts: seq<string>, files: seq<string>)

  /** The cursor after the loop over the parts: the tree and the path of the
      node `current` aliases. */
  datatype Cursor = Cursor(tree: Node, path: seq<string>)

  /** CPython's messages when the cursor is a `None` leaf. */
  const NoSetdefault: string := "'NoneType' object has no attribute 'setdefault'"
  const NoItemAssignment: string := "'NoneType' object does not support item assignment"

  // ---------------------------------------------------------------------------
  // Paths into a tree

  /** The node reached by following `path` from `t`, if any. */
  function At(t: Node, path: seq<string>): Option<Node> {
    if path == [] then Some(t)
    else match t
      case File => None
      case Dir(m) => if path[0] in m then At(m[path[0]], path[1..]) else None
  }

  predicate IsDirAt(t: Node, path: seq<string>) {
    At(t, path).Some? && At(t, path).value.Dir?
  }

  predicate IsFileAt(t: Node, path: seq<string>) {
    At(t, path) == Some(File)
  }

  predicate IsPrefix(a: seq<string>, b: seq<string>) {
    |a| <= |b| && b[..|a|] == a
  }

  /** Every proper ancestor of a node that exists is a directory. */
  lemma {:induction false} AncestorIsDir(t: Node, a: seq<string>, p: seq<string>)
    requires At(t, p).Some? && IsPrefix(a, p) && a != p
    ensures IsDirAt(t, a)
  {
    if a != [] {
      assert p[0] == a[0];
      assert IsPrefix(a[1..], p[1..]);
      AncestorIsDir(t.children[p[0]], a[1..], p[1..]);
    }
  }

  // ---------------------------------------------------------------------------
  // The two writes through the cursor

  /** `current.setdefault(name, {})` where `current` is the directory at `dir`:
      adds an empty directory `name` unless an entry `name` is already there. */
  function SetDefaultDir(t: Node, dir: seq<string>, name: string): Node
    requires IsDirAt(t, dir)
  {
    var m := t.children;
    if dir == [] then (if name in m then t else Dir(m[name := Dir(map[])]))
    else Dir(m[dir[0] := SetDefaultDir(m[dir[0]], dir[1..], name)])
  }

  /** `current[name] = None` where `current` is the directory at `dir`. */
  function SetFile(t: Node, dir: seq<string>, name: string): Node
    requires IsDirAt(t, dir)
  {
    var m := t.children;
    if dir == [] then Dir(m[name := File])
    else Dir(m[dir[0] := SetFile(m[dir[0]], dir[1..], name)])
  }

  /** `setdefault` never replaces what is there: when `dir + [name]` already
      exists the tree is unchanged, and otherwise the only new path is
      `dir + [name]`, an empty directory, with every other path keeping its
      kind. */
  lemma {:induction false} SetDefaultDirAt(t: Node, dir: seq<string>, name: string, p: seq<string>)
    requires IsDirAt(t, dir)
    ensures At(t, dir + [name]).Some? ==> SetDefaultDir(t, dir, name) == t
    ensures At(t, dir + [name]).None? ==>
      var t' := SetDefaultDir(t, dir, name);
      (IsDirAt(t', p) <==> IsDirAt(t, p) || p == dir + [name]) &&
      (IsFileAt(t', p) <==> IsFileAt(t, p))
  {
    var m := t.children;
    var t' := SetDefaultDir(t, dir, name);
    if dir == [] {
      assert dir + [name] == [name];
      assert At(t, [name]) == if name in m then At(m[name], []) else None;
      if name !in m && p != [] {
        if p[0] == name {
          assert At(t', p) == At(Dir(map[]), p[1..]);
          assert At(t, p) == None;
        } else {
          assert At(t', p) == At(t, p);
        }
      }
    } else {
      var d := dir[0];
      assert (dir + [name])[0] == d && (dir + [name])[1..] == dir[1..] + [name];
      assert At(t, dir + [name]) == At(m[d], dir[1..] + [name]);
      SetDefaultDirAt(m[d], dir[1..], name, if p == [] then [] else p[1..]);
      if At(t, dir + [name]).Some? {
        assert m[d := m[d]] == m;
      } else if p != [] && p[0] == d {
        assert p == dir + [name] <==> p[1..] == dir[1..] + [name];
      }
    }
  }

  /** `current[name] = None` makes `dir + [name]` a file and drops whatever
      was below it; every path outside that subtree keeps its kind. */
  lemma {:induction false} SetFileAt(t: Node, dir: seq<string>, name: string, p: seq<string>)
    requires IsDirAt(t, dir)
    ensures var t' := SetFile(t, dir, name);
      (IsFileAt(t', p) <==> p == dir + [name] || (IsFileAt(t, p) && !IsPrefix(dir + [name], p))) &&
      (IsDirAt(t', p) <==> IsDirAt(t, p) && !IsPrefix(dir + [name], p))
  {
    var m := t.children;
    var q := dir + [name];
    if dir == [] {
      assert q == [name];
      if p != [] && p[0] == name {
        assert IsPrefix(q, p);
        assert At(SetFile(t, dir, name), p) == At(File, p[1..]);
      }
    } else {
      assert q[0] == dir[0] && q[1..] == dir[1..] + [name];
      if p != [] && p[0] == dir[0] {
        SetFileAt(m[dir[0]], dir[1..], name, p[1..]);
        assert IsPrefix(q, p) <==> IsPrefix(q[1..], p[1..]);
        assert p == q <==> p[1..] == q[1..];
      } else if p != [] {
        assert !IsPrefix(q, p);
      }
    }
  }

  // ---------------------------------------------------------------------------
  // The specification of build_file_tree

  /** Lines 15-20: from cursor path `cur`, skip each `"."` part and step into
      `current.setdefault(part, {})`; stepping from a file raises. */
  function Descend(t: Node, cur: seq<string>, parts: seq<string>): (r: Result<Cursor>)
    requires At(t, cur).Some?
    ensures r.Ok? ==> At(r.value.tree, r.value.path).Some?
    decreases parts
  {
    if parts == [] then Ok(Cursor(t, cur))
    else if parts[0] == "." then Descend(t, cur, parts[1..])
    else if !IsDirAt(t, cur) then Err(NoSetdefault)
    else
      var t' := SetDefaultDir(t, cur, parts[0]);
      SetDefaultDirAt(t, cur, parts[0], cur + [parts[0]]);
      Descend(t', cur + [parts[0]], parts[1..])
  }

  /** Lines 22-23: `current[file] = None` for each file; assigning into a file
      raises. */
  function AddFiles(t: Node, cur: seq<string>, files: seq<string>): Result<Node>
    requires At(t, cur).Some?
    decreases files
  {
    if files == [] then Ok(t)
    else if !IsDirAt(t, cur) then Err(NoItemAssignment)
    else
      SetFileAt(t, cur, files[0], cur);
      AddFiles(SetFile(t, cur, files[0]), cur, files[1..])
  }

  /** One iteration of the outer loop (lines 13-23), starting at the root. */
  function AddEntry(t: Node, e: WalkEntry): Result<Node> {
    match Descend(t, [], e.parts)
    case Err(msg) => Err(msg)
    case Ok(c) => AddFiles(c.tree, c.path, e.files)
  }

  /** The outer loop over the rest of the walk, from tree `t`. */
  function BuildFrom(t: Node, walk: seq<WalkEntry>): Result<Node>
    decreases walk
  {
    if walk == [] then Ok(t)
    else match AddEntry(t, walk[0])
      case Err(msg) => Err(msg)
      case Ok(t') => BuildFrom(t', walk[1..])
  }

  /** What `build_file_tree` returns, or the exception it raises. */
  function Build(walk: seq<WalkEntry>): Result<Node> {
    BuildFrom(Dir(map[]), walk)
  }

  // ---------------------------------------------------------------------------
  // build_file_tree, step by step

  /** Lines 9-24: the three nested loops, writing through the cursor. */
  method BuildFileTree(walk: seq<WalkEntry>) returns (r: Result<Node>)
    ensures r == Build(walk)
  {
    var tree := Dir(map[]);
    var i := 0;
    while i < |walk|
      invariant 0 <= i <= |walk|
      invariant BuildFrom(tree, walk[i..]) == Build(walk)
    {
      assert walk[i..][1..] == walk[i + 1..];
      var entry := walk[i];
      ghost var start := tree;
      var current: seq<string> := [];
      var j := 0;
      while j < |entry.parts|
        invariant 0 <= j <= |entry.parts|
        invariant At(tree, current).Some?
        invariant Descend(tree, current, entry.parts[j..]) == Descend(start, [], entry.parts)
      {
        assert entry.parts[j..][1..] == entry.parts[j + 1..];
        var part := entry.parts[j];
        if part != "." {
          if !IsDirAt(tree, current) {
            return Err(NoSetdefault);
          }
          SetDefaultDirAt(tree, current, part, current + [part]);
          tree := SetDefaultDir(tree, current, part);
          current := current + [part];
        }
        j := j + 1;
      }
      assert Descend(start, [], entry.parts) == Ok(Cursor(tree, current));
      var k := 0;
      while k < |entry.files|
        invariant 0 <= k <= |entry.files|
        invariant At(tree, current).Some?
        invariant AddFiles(tree, current, entry.files[k..]) == AddEntry(start, entry)
      {
        assert entry.files[k..][1..] == entry.files[k + 1..];
        if !IsDirAt(tree, current) {
          return Err(NoItemAssignment);
        }
        SetFileAt(tree, current, entry.files[k], current);
        tree := SetFile(tree, current, entry.files[k]);
        k := k + 1;
      }
      i := i + 1;
    }
    return Ok(tree);
  }

  // ---------------------------------------------------------------------------
  // What the tree holds

  /** The `"."` parts dropped: the path of the walked directory in the tree. */
  function Clean(parts: seq<string>): seq<string> {
    if parts == [] then []
    else if parts[0] == "." then Clean(parts[1..])
    else [parts[0]] + Clean(parts[1..])
  }

  function Prefixes(s: seq<string>): set<seq<string>> {
    set k | 0 <= k <= |s| :: s[..k]
  }

  /** The directories the walk names: each walked directory and its ancestors. */
  function WalkDirs(walk: seq<WalkEntry>): set<seq<string>> {
    if walk == [] then {} else Prefixes(Clean(walk[0].parts)) + WalkDirs(walk[1..])
  }

  function FilesIn(dir: seq<string>, files: seq<string>): set<seq<string>> {
    set f | f in files :: dir + [f]
  }

  /** The files the walk names, each under its walked directory. */
  function WalkFiles(walk: seq<WalkEntry>): set<seq<string>> {
    if walk == [] then {} else FilesIn(Clean(walk[0].parts), walk[0].files) + WalkFiles(walk[1..])
  }

  /** No path is named both as a directory and as a file: true of every walk
      of a real directory tree. */
  predicate Consistent(walk: seq<WalkEntry>) {
    WalkDirs(walk) !! WalkFiles(walk)
  }

  /** `t` has directories exactly at `dirs` and files exactly at `files`. */
  ghost predicate Shape(t: Node, dirs: set<seq<string>>, files: set<seq<string>>) {
    forall p :: (IsDirAt(t, p) <==> p in dirs) && (IsFileAt(t, p) <==> p in files)
  }

  lemma PrefixesStep(s: seq<string>, x: string)
    ensures Prefixes(s + [x]) == Prefixes(s) + {s + [x]}
  {
    forall p | p in Prefixes(s + [x]) ensures p in Prefixes(s) + {s + [x]} {
      var k :| 0 <= k <= |s| + 1 && p == (s + [x])[..k];
      if k <= |s| { assert p == s[..k]; }
    }
    forall p | p in Prefixes(s) ensures p in Prefixes(s + [x]) {
      var k :| 0 <= k <= |s| && p == s[..k];
      assert p == (s + [x])[..k];
    }
    assert s + [x] == (s + [x])[..|s| + 1];
  }

  lemma {:induction false} DescendShape(t: Node, cur: seq<string>, parts: seq<string>,
                                        dirs: set<seq<string>>, files: set<seq<string>>,
                                        allFiles: set<seq<string>>)
    requires At(t, cur).Some? && Shape(t, dirs, files)
    requires Prefixes(cur) <= dirs && files <= allFiles
    requires Prefixes(cur + Clean(parts)) !! allFiles
    decreases parts
    ensures Descend(t, cur, parts).Ok?
    ensures var c := Descend(t, cur, parts).value;
      c.path == cur + Clean(parts) && Shape(c.tree, dirs + Prefixes(c.path), files)
  {
    if parts == [] {
      assert cur + Clean(parts) == cur;
      assert dirs + Prefixes(cur) == dirs;
    } else if parts[0] == "." {
      DescendShape(t, cur, parts[1..], dirs, files, allFiles);
    } else {
      var q := cur + [parts[0]];
      assert cur + Clean(parts) == q + Clean(parts[1..]);
      assert cur == cur[..|cur|];
      assert IsDirAt(t, cur);
      var t' := SetDefaultDir(t, cur, parts[0]);
      PrefixesStep(cur, parts[0]);
      assert q == (cur + Clean(parts))[..|q|];
      assert q in Prefixes(cur + Clean(parts));
      assert q !in files;
      forall p ensures (IsDirAt(t', p) <==> p in dirs + {q}) && (IsFileAt(t', p) <==> p in files) {
        SetDefaultDirAt(t, cur, parts[0], p);
      }
      SetDefaultDirAt(t, cur, parts[0], q);
      assert Prefixes(q) <= dirs + {q};
      forall p | p in Prefixes(q + Clean(parts[1..])) ensures p in Prefixes(cur + Clean(parts)) {}
      DescendShape(t', q, parts[1..], dirs + {q}, files, allFiles);
      var c := Descend(t, cur, parts).value;
      assert dirs + {q} + Prefixes(c.path) == dirs + Prefixes(c.path) by {
        assert q == c.path[..|q|];
      }
    }
  }

  lemma {:induction false} AddFilesShape(t: Node, cur: seq<string>, files: seq<string>,
                                         dirs: set<seq<string>>, fs: set<seq<string>>,
                                         allDirs: set<seq<string>>)
    requires At(t, cur).Some? && Shape(t, dirs, fs)
    requires cur in dirs && dirs <= allDirs
    requires FilesIn(cur, files) !! allDirs
    decreases files
    ensures AddFiles(t, cur, files).Ok?
    ensures Shape(AddFiles(t, cur, files).value, dirs, fs + FilesIn(cur, files))
  {
    if files == [] {
      assert FilesIn(cur, files) == {};
    } else {
      var q := cur + [files[0]];
      var t' := SetFile(t, cur, files[0]);
      assert q in FilesIn(cur, files);
      forall p ensures (IsDirAt(t', p) <==> p in dirs) && (IsFileAt(t', p) <==> p in fs + {q}) {
        SetFileAt(t, cur, files[0], p);
        if IsPrefix(q, p) && p != q && At(t, p).Some? {
          AncestorIsDir(t, q, p);
        }
      }
      SetFileAt(t, cur, files[0], cur);
      assert FilesIn(cur, files[1..]) <= FilesIn(cur, files);
      AddFilesShape(t', cur, files[1..], dirs, fs + {q}, allDirs);
      assert fs + {q} + FilesIn(cur, files[1..]) == fs + FilesIn(cur, files) by {
        assert files == [files[0]] + files[1..];
      }
    }
  }

  lemma {:induction false} BuildFromShape(t: Node, walk: seq<WalkEntry>,
                                          dirs: set<seq<string>>, files: set<seq<string>>,
                                          allDirs: set<seq<string>>, allFiles: set<seq<string>>)
    requires Shape(t, dirs, files) && [] in dirs
    requires dirs <= allDirs && files <= allFiles && allDirs !! allFiles
    requires WalkDirs(walk) <= allDirs && WalkFiles(walk) <= allFiles
    decreases walk
    ensures BuildFrom(t, walk).Ok?
    ensures Shape(BuildFrom(t, walk).value, dirs + WalkDirs(walk), files + WalkFiles(walk))
  {
    if walk == [] {
      assert dirs + WalkDirs(walk) == dirs && files + WalkFiles(walk) == files;
    } else {
      var e := walk[0];
      var path := Clean(e.parts);
      assert At(t, []).Some?;
      var root: seq<string> := [];
      assert Prefixes(root) == {root} by {
        assert root[..0] in Prefixes(root);
      }
      assert [] + Clean(e.parts) == path;
      DescendShape(t, [], e.parts, dirs, files, allFiles);
      var c := Descend(t, [], e.parts).value;
      var dirs' := dirs + Prefixes(path);
      assert path == path[..|path|];
      assert path in Prefixes(path);
      assert IsDirAt(c.tree, c.path);
      AddFilesShape(c.tree, c.path, e.files, dirs', files, allDirs);
      var files' := files + FilesIn(path, e.files);
      BuildFromShape(AddFiles(c.tree, c.path, e.files).value, walk[1..], dirs', files', allDirs, allFiles);
    }
  }

  /** On a consistent walk, `build_file_tree` succeeds and its tree has a
      directory at exactly the root, each walked directory and their
      ancestors, and a `None` leaf at exactly each listed file under the
      directory it was listed for. */
  lemma BuildShape(walk: seq<WalkEntry>)
    requires Consistent(walk)
    ensures Build(walk).Ok?
    ensures forall p ::
      (IsDirAt(Build(walk).value, p) <==> p == [] || p in WalkDirs(walk)) &&
      (IsFileAt(Build(walk).value, p) <==> p in WalkFiles(walk))
  {
    var empty := Dir(map[]);
    forall p ensures (IsDirAt(empty, p) <==> p in {[]}) && (IsFileAt(empty, p) <==> p in {}) {
      if p != [] { assert At(empty, p) == None; }
    }
    NoRootFile(walk);
    BuildFromShape(empty, walk, {[]}, {}, {[]} + WalkDirs(walk), WalkFiles(walk));
    assert {} + WalkFiles(walk) == WalkFiles(walk);
  }

  lemma {:induction false} NoRootFile(walk: seq<WalkEntry>)
    ensures [] !in WalkFiles(walk)
  {
    if walk != [] { NoRootFile(walk[1..]); }
  }

  /** Every file listed for a walked directory is a `None` leaf at the node
      reached by following that directory's parts (`"."` skipped), and that
      directory is a mapping even when it holds nothing. */
  lemma EveryListedFileIsLeaf(walk: seq<WalkEntry>, k: nat, f: string)
    requires Consistent(walk) && k < |walk|
    ensures Build(walk).Ok?
    ensures IsDirAt(Build(walk).value, Clean(walk[k].parts))
    ensures f in walk[k].files ==> IsFileAt(Build(walk).value, Clean(walk[k].parts) + [f])
  {
    BuildShape(walk);
    InWalkSets(walk, k, f);
  }

  lemma {:induction false} InWalkSets(walk: seq<WalkEntry>, k: nat, f: string)
    requires k < |walk|
    ensures Clean(walk[k].parts) in WalkDirs(walk)
    ensures f in walk[k].files ==> Clean(walk[k].parts) + [f] in WalkFiles(walk)
  {
    var path := Clean(walk[k].parts);
    if k == 0 {
      assert path == path[..|path|];
    } else {
      InWalkSets(walk[1..], k - 1, f);
    }
  }

  /** The root's own entry has parts `["."]`, so its files become top-level
      leaves of the tree. */
  lemma RootFilesAreTopLevel(walk: seq<WalkEntry>, k: nat, f: string)
    requires Consistent(walk) && k < |walk| && walk[k].parts == ["."] && f in walk[k].files
    ensures Build(walk).Ok? && Build(walk).value.Dir?
    ensures f in Build(walk).value.children && Build(walk).value.children[f] == File
  {
    assert Clean(["."]) == Clean([]) == [];
    assert Clean(["."]) + [f] == [f] && [f][1..] == [];
    EveryListedFileIsLeaf(walk, k, f);
    BuildShape(walk);
    var tree := Build(walk).value;
    assert IsDirAt(tree, []);
    assert At(tree, [f]) == Some(File);
    assert f in tree.children && At(tree.children[f], []) == Some(File);
  }

  /** A tree is determined by where its directories and files are. */
  lemma {:induction false} ShapeDetermines(t1: Node, t2: Node)
    requires forall p :: (IsDirAt(t1, p) <==> IsDirAt(t2, p)) && (IsFileAt(t1, p) <==> IsFileAt(t2, p))
    ensures t1 == t2
  {
    assert IsDirAt(t1, []) <==> IsDirAt(t2, []);
    if t1.Dir? {
      var m1, m2 := t1.children, t2.children;
      forall k | k in m1 ensures k in m2 && m1[k] == m2[k] {
        assert [k][1..] == [] && At(t1, [k]) == Some(m1[k]);
        assert IsDirAt(t1, [k]) || IsFileAt(t1, [k]);
        assert At(t2, [k]).Some?;
        forall p ensures (IsDirAt(m1[k], p) <==> IsDirAt(m2[k], p)) && (IsFileAt(m1[k], p) <==> IsFileAt(m2[k], p)) {
          assert ([k] + p)[0] == k && ([k] + p)[1..] == p;
          assert At(t1, [k] + p) == At(m1[k], p) && At(t2, [k] + p) == At(m2[k], p);
          assert IsDirAt(t1, [k] + p) <==> IsDirAt(t2, [k] + p);
          assert IsFileAt(t1, [k] + p) <==> IsFileAt(t2, [k] + p);
        }
        ShapeDetermines(m1[k], m2[k]);
      }
      forall k | k in m2 ensures k in m1 {
        assert [k][1..] == [] && At(t2, [k]) == Some(m2[k]);
        assert IsDirAt(t2, [k]) || IsFileAt(t2, [k]);
        assert At(t1, [k]).Some?;
      }
      assert m1 == m2;
    }
  }

  lemma {:induction false} WalkSetsMembers(walk: seq<WalkEntry>, p: seq<string>)
    ensures p in WalkDirs(walk) <==> exists e :: e in walk && p in Prefixes(Clean(e.parts))
    ensures p in WalkFiles(walk) <==> exists e :: e in walk && p in FilesIn(Clean(e.parts), e.files)
  {
    if walk != [] {
      WalkSetsMembers(walk[1..], p);
      assert forall e :: e in walk <==> e == walk[0] || e in walk[1..];
    }
  }

  /** Listing the same entries, in any order and with any repetition,
      names the same directories and files. */
  lemma SameEntriesSameListing(w1: seq<WalkEntry>, w2: seq<WalkEntry>)
    requires forall e :: e in w1 <==> e in w2
    ensures WalkDirs(w1) == WalkDirs(w2) && WalkFiles(w1) == WalkFiles(w2)
  {
    forall p ensures (p in WalkDirs(w1) <==> p in WalkDirs(w2)) && (p in WalkFiles(w1) <==> p in WalkFiles(w2)) {
      WalkSetsMembers(w1, p);
      WalkSetsMembers(w2, p);
    }
  }

  /** A directory listing its file names in another order, or with
      repetition, names the same files. */
  lemma {:induction false} FileOrderIrrelevant(w1: seq<WalkEntry>, w2: seq<WalkEntry>)
    requires |w1| == |w2|
    requires forall k :: 0 <= k < |w1| ==>
      w1[k].parts == w2[k].parts && forall f :: f in w1[k].files <==> f in w2[k].files
    ensures WalkDirs(w1) == WalkDirs(w2) && WalkFiles(w1) == WalkFiles(w2)
  {
    if w1 != [] {
      FileOrderIrrelevant(w1[1..], w2[1..]);
      assert FilesIn(Clean(w1[0].parts), w1[0].files) == FilesIn(Clean(w2[0].parts), w2[0].files);
    }
  }

  /** The tree depends only on which directories and files the walk names:
      whatever order the filesystem yields its directories in, and whatever
      order each directory lists its files in, the trees are equal as
      dicts. */
  lemma BuildOrderIndependent(w1: seq<WalkEntry>, w2: seq<WalkEntry>)
    requires Consistent(w1)
    requires WalkDirs(w1) == WalkDirs(w2) && WalkFiles(w1) == WalkFiles(w2)
    ensures Consistent(w2) && Build(w1) == Build(w2)
  {
    BuildShape(w1);
    BuildShape(w2);
    ShapeDetermines(Build(w1).value, Build(w2).value);
  }

  /** The two listing orders of one directory build equal trees. */
  lemma TwoFileOrders()
    ensures Build([WalkEntry(["."], ["a", "b"])]) == Build([WalkEntry(["."], ["b", "a"])])
  {
    var w1, w2 := [WalkEntry(["."], ["a", "b"])], [WalkEntry(["."], ["b", "a"])];
    FileOrderIrrelevant(w1, w2);
    assert WalkDirs(w1) !! WalkFiles(w1) by {
      assert Clean(["."]) == [];
      assert forall p :: p in Prefixes([]) ==> p == [];
    }
    BuildOrderIndependent(w1, w2);
  }
}
