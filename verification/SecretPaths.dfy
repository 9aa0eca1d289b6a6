/**
 What a mounted store shows at a path, said by looking the path up in the source directory: no list
 of files and no walk occur in these statements.
 */
module SecretPaths {
  import opened Paths
  import opened Placing
  import opened SecretTree
  import opened Wrappers

  /** What is at a path below a source node. */
  function Lookup(node: Source, path: seq<string>): Option<Source>
    decreases |path|
  {
    if path == [] then Some(node)
    else if !node.Folder? then None
    else
      var e := Find(node.entries, path[0]);
      if e.None? then None else Lookup(e.value, path[1..])
  }

  function Find(entries: seq<Entry>, name: string): Option<Source> {
    if entries == [] then None
    else if entries[0].name == name then Some(entries[0].node)
    else Find(entries[1..], name)
  }

  /**
   The source below `root` has, at `p` with the suffix put back, a readable regular file that decrypts
   to `content`, and `load` is what loading its sidecar gives: the path of `p` with ".yml" appended.
   */
  ghost predicate Encrypts(
      env: Env, above: seq<string>, root: Source, p: seq<string>, content: Bytes, load: AttrLoad)
  {
    && p != []
    && load == env.attrs(Absolute(above + p) + ".yml")
    && exists data :: Lookup(root, SourceOf(p)) == Some(Regular(Some(data))) && env.decrypt(data) == Some(content)
  }

  function SourceOf(p: seq<string>): seq<string>
    requires p != []
  {
    p[..|p| - 1] + [p[|p| - 1] + ".gpg"]
  }

  // -------------------------------------------------- candidates by lookup

  lemma {:induction false} FindExactly(entries: seq<Entry>, k: nat)
    requires ListedEntries(entries) && k < |entries|
    ensures Find(entries, entries[k].name) == Some(entries[k].node)
    decreases k
  {
    if k == 0 {
    } else {
      LessIrreflexive(entries[0].name);
      assert Less(entries[0].name, entries[k].name);
      assert entries[1..][k - 1] == entries[k];
      FindExactly(entries[1..], k - 1);
    }
  }

  lemma {:induction false} FindFinds(entries: seq<Entry>, name: string) returns (k: nat)
    requires Find(entries, name).Some?
    ensures k < |entries| && entries[k].name == name && Find(entries, name) == Some(entries[k].node)
  {
    if entries[0].name == name {
      k := 0;
    } else {
      var i := FindFinds(entries[1..], name);
      k := i + 1;
    }
  }

  lemma {:induction false} InEntries(env: Env, above: seq<string>, dir: seq<string>, entries: seq<Entry>, c: Candidate)
    ensures c in EntryCandidates(env, above, dir, entries) <==>
      exists k :: 0 <= k < |entries| && c in CandidatesAt(env, above, dir, entries[k])
    decreases |entries|
  {
    if entries == [] {
    } else {
      InEntries(env, above, dir, entries[1..], c);
      if k :| 0 <= k < |entries[1..]| && c in CandidatesAt(env, above, dir, entries[1..][k]) {
        assert entries[k + 1] == entries[1..][k];
      }
      if k :| 0 <= k < |entries| && c in CandidatesAt(env, above, dir, entries[k]) {
        assert k > 0 ==> entries[1..][k - 1] == entries[k];
      }
    }
  }

  /** Candidate `c` of the folder `dir` is the source file that the rest of its path leads to. */
  ghost predicate LiesBelow(env: Env, above: seq<string>, dir: seq<string>, node: Source, c: Candidate) {
    && dir <= c.dir
    && c.load == env.attrs(Absolute(above + c.Target()) + ".yml")
    && exists data :: Lookup(node, c.dir[|dir|..] + [c.stem + ".gpg"]) == Some(Regular(Some(data)))
         && env.decrypt(data) == Some(c.content)
  }

  lemma {:induction false} CandidatesExactly(env: Env, above: seq<string>, dir: seq<string>, node: Source, c: Candidate)
    requires node.Folder? && Listed(node)
    ensures c in Candidates(env, above, dir, node) <==> LiesBelow(env, above, dir, node, c)
    decreases node, 1
  {
    var entries := node.entries;
    InEntries(env, above, dir, entries, c);
    forall k | 0 <= k < |entries|
      ensures c in CandidatesAt(env, above, dir, entries[k]) <==>
        LiesBelow(env, above, dir, node, c) && NextStep(dir, c) == entries[k].name
    {
      CandidatesOfEntry(env, above, dir, node, k, c);
    }
    if LiesBelow(env, above, dir, node, c) {
      NextIsListed(env, above, dir, node, c);
    }
  }

  /** The entry of `dir` that leads on to `c`. */
  function NextStep(dir: seq<string>, c: Candidate): string {
    if |c.dir| > |dir| then c.dir[|dir|] else c.stem + ".gpg"
  }

  lemma PathFromDir(dir: seq<string>, c: Candidate)
    requires dir <= c.dir
    ensures var path := c.dir[|dir|..] + [c.stem + ".gpg"];
      path[0] == NextStep(dir, c)
      && path[1..] == if |c.dir| > |dir| then c.dir[|dir| + 1..] + [c.stem + ".gpg"] else []
  {
    var rest := c.dir[|dir|..];
    if |c.dir| > |dir| {
      assert rest[0] == c.dir[|dir|] && rest[1..] == c.dir[|dir| + 1..];
      assert (rest + [c.stem + ".gpg"])[1..] == rest[1..] + [c.stem + ".gpg"];
    } else {
      assert rest == [] && [] + [c.stem + ".gpg"] == [c.stem + ".gpg"];
    }
  }

  lemma NextIsListed(env: Env, above: seq<string>, dir: seq<string>, node: Source, c: Candidate)
    requires node.Folder? && LiesBelow(env, above, dir, node, c)
    ensures exists k :: 0 <= k < |node.entries| && NextStep(dir, c) == node.entries[k].name
  {
    PathFromDir(dir, c);
    var k := FindFinds(node.entries, NextStep(dir, c));
  }

  lemma {:induction false} CandidatesOfEntry(
      env: Env, above: seq<string>, dir: seq<string>, node: Source, k: nat, c: Candidate)
    requires node.Folder? && Listed(node) && k < |node.entries|
    ensures c in CandidatesAt(env, above, dir, node.entries[k]) <==>
      LiesBelow(env, above, dir, node, c) && NextStep(dir, c) == node.entries[k].name
    decreases node, 0
  {
    var e := node.entries[k];
    FindExactly(node.entries, k);
    if dir <= c.dir {
      PathFromDir(dir, c);
    }
    match e.node {
      case Regular(data) => FileCandidateExactly(env, above, dir, node, e, data, c);
      case Folder(_, _) => FolderCandidatesExactly(env, above, dir, node, e, c);
      case _ =>
        if dir <= c.dir && NextStep(dir, c) == e.name {
          LookupStep(node, e, c.dir[|dir|..] + [c.stem + ".gpg"]);
        }
    }
  }

  lemma FileCandidateExactly(
      env: Env, above: seq<string>, dir: seq<string>, node: Source, e: Entry, data: Option<Bytes>, c: Candidate)
    requires node.Folder? && Find(node.entries, e.name) == Some(e.node) && e.node == Regular(data)
    ensures c in FileCandidate(env, above, dir, e.name, data) <==>
      LiesBelow(env, above, dir, node, c) && NextStep(dir, c) == e.name
  {
    Suffixed(e.name, c.stem);
    if dir <= c.dir {
      PathFromDir(dir, c);
    }
    if c in FileCandidate(env, above, dir, e.name, data) {
      LookupStep(node, e, [e.name]);
      assert c == FileCandidate(env, above, dir, e.name, data)[0];
      assert c.dir == dir && above + c.Target() == above + dir + [c.stem];
    }
    if LiesBelow(env, above, dir, node, c) && NextStep(dir, c) == e.name {
      LookupStep(node, e, c.dir[|dir|..] + [c.stem + ".gpg"]);
      assert |c.dir| == |dir|;
      assert c.dir == dir && above + c.Target() == above + dir + [c.stem];
      assert data.Some? && env.decrypt(data.value) == Some(c.content);
      assert FileCandidate(env, above, dir, e.name, data)[0] == c;
    }
  }

  lemma LookupStep(node: Source, e: Entry, path: seq<string>)
    requires node.Folder? && Find(node.entries, e.name) == Some(e.node)
    requires path != [] && path[0] == e.name
    ensures Lookup(node, path) == Lookup(e.node, path[1..])
    ensures |path| > 1 && !e.node.Folder? ==> Lookup(node, path) == None
    ensures |path| == 1 ==> Lookup(node, path) == Some(e.node)
  {
  }

  lemma Suffixed(name: string, stem: string)
    ensures name == stem + ".gpg" <==> HasSuffix(name, ENCRYPTED_SUFFIX) && TrimSuffix(name, ENCRYPTED_SUFFIX) == stem
  {
    if name == stem + ".gpg" {
      assert name[|name| - 4..] == ".gpg" && name[..|name| - 4] == stem;
    }
    if HasSuffix(name, ENCRYPTED_SUFFIX) {
      assert name == name[..|name| - 4] + name[|name| - 4..];
    }
  }

  lemma {:induction false} FolderCandidatesExactly(
      env: Env, above: seq<string>, dir: seq<string>, node: Source, e: Entry, c: Candidate)
    requires node.Folder? && e in node.entries && Find(node.entries, e.name) == Some(e.node)
    requires e.node.Folder? && Listed(e.node)
    ensures c in Candidates(env, above, dir + [e.name], e.node) <==>
      LiesBelow(env, above, dir, node, c) && NextStep(dir, c) == e.name
    decreases e.node, 2
  {
    CandidatesExactly(env, above, dir + [e.name], e.node, c);
    if dir <= c.dir {
      PathFromDir(dir, c);
    }
    if dir + [e.name] <= c.dir {
      assert c.dir[..|dir| + 1] == dir + [e.name];
      assert c.dir[|dir|] == e.name && dir == c.dir[..|dir| + 1][..|dir|];
      assert c.dir[|dir + [e.name]|..] == c.dir[|dir| + 1..];
      LookupStep(node, e, c.dir[|dir|..] + [c.stem + ".gpg"]);
    } else if dir <= c.dir && NextStep(dir, c) == e.name {
      StepsInto(dir, e.name, c.dir);
      LookupStep(node, e, c.dir[|dir|..] + [c.stem + ".gpg"]);
    }
  }

  lemma StepsInto(dir: seq<string>, name: string, path: seq<string>)
    requires dir <= path && (|path| > |dir| ==> path[|dir|] == name)
    ensures dir + [name] <= path || path == dir
  {
    if |path| > |dir| {
      assert path[..|dir| + 1] == dir + [name];
    }
  }

  // ---------------------------------------------------------- main theorems

  lemma EncryptsExactly(
      env: Env, above: seq<string>, root: Source, p: seq<string>, content: Bytes, load: AttrLoad)
    requires root.Folder? && Listed(root) && p != []
    ensures Encrypts(env, above, root, p, content, load) <==>
      Candidate(p[..|p| - 1], p[|p| - 1], content, load) in Candidates(env, above, [], root)
  {
    var c := Candidate(p[..|p| - 1], p[|p| - 1], content, load);
    assert c.Target() == p && c.dir[0..] == c.dir;
    CandidatesExactly(env, above, [], root, c);
  }

  /** The attributes of a mounted file: its sidecar's, or mode 0400 and owner 0 without one. */
  predicate Attributes(load: AttrLoad, a: Attr) {
    load == Loaded(a) || (load == Absent && a == Attr(256, 0, 0, 0))
  }

  /** Some mountable file of the source lies strictly below `p`. */
  ghost predicate HoldsFiles(env: Env, above: seq<string>, root: Source, p: seq<string>) {
    exists q, content, load :: p < q && Encrypts(env, above, root, q, content, load)
  }

  lemma DirAtExactly(env: Env, above: seq<string>, root: Source, p: seq<string>)
    requires root.Folder? && Listed(root)
    ensures DirAt(Candidates(env, above, [], root), p) <==> p == [] || HoldsFiles(env, above, root, p)
  {
    var cs := Candidates(env, above, [], root);
    if i :| 0 <= i < |cs| && p <= cs[i].dir {
      TargetParts(cs[i]);
      EncryptsExactly(env, above, root, cs[i].Target(), cs[i].content, cs[i].load);
      assert p < cs[i].Target();
    }
    if q, content, load :| p < q && Encrypts(env, above, root, q, content, load) {
      EncryptsExactly(env, above, root, q, content, load);
      var c := Candidate(q[..|q| - 1], q[|q| - 1], content, load);
      var i :| 0 <= i < |cs| && cs[i] == c;
      assert p == q[..|p|] == c.dir[..|p|];
    }
  }

  lemma TargetParts(c: Candidate)
    ensures var p := c.Target(); p != [] && Candidate(p[..|p| - 1], p[|p| - 1], c.content, c.load) == c
  {
    assert c.Target()[..|c.Target()| - 1] == c.dir;
  }

  lemma FileAtExactly(env: Env, above: seq<string>, root: Source, p: seq<string>, content: Bytes, a: Attr)
    requires root.Folder? && Listed(root) && AllLoad(Candidates(env, above, [], root))
    ensures FileAt(Candidates(env, above, [], root), p, File(content, a)) <==>
      && p != [] && !HoldsFiles(env, above, root, p)
      && exists load :: Encrypts(env, above, root, p, content, load) && Attributes(load, a)
  {
    var cs := Candidates(env, above, [], root);
    DirAtExactly(env, above, root, p);
    if i :| 0 <= i < |cs| && cs[i].Target() == p && File(content, a) == File(cs[i].content, AttrOf(cs[i].load)) {
      TargetParts(cs[i]);
      EncryptsExactly(env, above, root, p, content, cs[i].load);
      assert !cs[i].load.Failed?;
      assert Attributes(cs[i].load, a);
    }
    if load :| Encrypts(env, above, root, p, content, load) && Attributes(load, a) {
      EncryptsExactly(env, above, root, p, content, load);
      var c := Candidate(p[..|p| - 1], p[|p| - 1], content, load);
      var i :| 0 <= i < |cs| && cs[i] == c;
      assert cs[i].Target() == p;
    }
  }

  /**
   What a mounted store is, path by path. When every sidecar loads and every file keeps its name, a path
   is a directory exactly if it is the root or a mountable file lies below it; and it is a file with this
   content and these attributes exactly if the source has the encrypted file there, with that content
   and sidecar, and no mountable file lies below the path.
   */
  lemma PathsResolve(env: Env, above: seq<string>, root: Source, p: seq<string>, content: Bytes, a: Attr)
    requires env.source == Absolute(above) && ValidNames(above)
    requires root.Folder? && Listed(root)
    requires var cs := Candidates(env, above, [], root); AllLoad(cs) && AllFaithful(above, cs)
    ensures Rooted(env.source)
    ensures var result := PlaceAll(EMPTY_TREE, Placements(env, env.source, root));
      && result.end == Finished
      && (p in result.tree && result.tree[p] == Directory <==> p == [] || HoldsFiles(env, above, root, p))
      && (p in result.tree && result.tree[p] == File(content, a) <==>
            && p != [] && !HoldsFiles(env, above, root, p)
            && exists load :: Encrypts(env, above, root, p, content, load) && Attributes(load, a))
  {
    var cs := Candidates(env, above, [], root);
    PreloadMeetsSpecification(env, above, root);
    var tree := PlaceAll(EMPTY_TREE, Placements(env, env.source, root)).tree;
    assert ShowsAt(tree, cs, p, Directory) && ShowsAt(tree, cs, p, File(content, a));
    DirAtExactly(env, above, root, p);
    FileAtExactly(env, above, root, p, content, a);
  }

  /** Every mountable file that no folder hides has the attributes of its sidecar, or the default ones. */
  lemma SidecarsAreApplied(env: Env, above: seq<string>, root: Source, c: Candidate)
    requires env.source == Absolute(above) && ValidNames(above)
    requires root.Folder? && Listed(root)
    requires var cs := Candidates(env, above, [], root);
      AllLoad(cs) && AllFaithful(above, cs) && NoneHidden(cs) && c in cs
    ensures Rooted(env.source)
    ensures var tree := PlaceAll(EMPTY_TREE, Placements(env, env.source, root)).tree;
      c.Target() in tree && tree[c.Target()] ==
        if c.load.Loaded? then File(c.content, c.load.attr) else File(c.content, Attr(256, 0, 0, 0))
  {
    var cs := Candidates(env, above, [], root);
    EveryFileVisible(env, above, root);
    var i :| 0 <= i < |cs| && cs[i] == c;
    var tree := PlaceAll(EMPTY_TREE, Placements(env, env.source, root)).tree;
    assert Visible(tree, cs[i]) && !cs[i].load.Failed?;
  }
}
