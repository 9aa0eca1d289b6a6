/** Concrete stores on which mounting does not do what one would expect. */
module StoreExamples {
  import opened Paths
  import opened Placing
  import opened SecretTree
  import opened Wrappers

  /** Source directory `/s`, one ciphertext that decrypts, and no sidecars. */
  ghost predicate Simple(env: Env, data: Bytes, plain: Bytes) {
    && env.source == Absolute(["s"])
    && env.decrypt(data) == Some(plain) && plain != []
    && forall p :: env.attrs(p) == Absent
  }

  function Encrypted(name: string, data: Bytes): Entry {
    Entry(name, Regular(Some(data)))
  }

  function Plain(dir: seq<string>, stem: string, plain: Bytes): Candidate {
    Candidate(dir, stem, plain, Absent)
  }

  lemma NamesValid()
    ensures ValidName("a") && ValidName(".gpg") && ValidName("a.gpg") && ValidName("b.gpg")
  {
  }

  lemma NamesSorted()
    ensures Less(".gpg", "b.gpg") && Less("a", "a.gpg")
  {
    assert "a"[1..] == "" && "a.gpg"[1..] == ".gpg";
  }

  lemma NamesEncrypted()
    ensures ".gpg" == "" + ENCRYPTED_SUFFIX && "a.gpg" == "a" + ENCRYPTED_SUFFIX && "b.gpg" == "b" + ENCRYPTED_SUFFIX
  {
  }

  lemma OneListed(e: Entry)
    requires ValidName(e.name) && Listed(e.node)
    ensures ListedEntries([e])
  {
  }

  lemma TwoListed(e: Entry, f: Entry)
    requires ValidName(e.name) && Listed(e.node) && ValidName(f.name) && Listed(f.node) && Less(e.name, f.name)
    ensures ListedEntries([e, f])
  {
  }

  lemma FileGives(env: Env, data: Bytes, plain: Bytes, dir: seq<string>, name: string, stem: string)
    requires Simple(env, data, plain) && name == stem + ENCRYPTED_SUFFIX
    ensures CandidatesAt(env, ["s"], dir, Encrypted(name, data)) == [Plain(dir, stem, plain)]
  {
    assert name[|name| - |ENCRYPTED_SUFFIX|..] == ENCRYPTED_SUFFIX && name[..|name| - |ENCRYPTED_SUFFIX|] == stem;
  }

  lemma OneEntry(env: Env, dir: seq<string>, e: Entry)
    ensures EntryCandidates(env, ["s"], dir, [e]) == CandidatesAt(env, ["s"], dir, e)
  {
    assert [e][1..] == [];
    assert CandidatesAt(env, ["s"], dir, e) + [] == CandidatesAt(env, ["s"], dir, e);
  }

  lemma TwoEntries(env: Env, dir: seq<string>, e: Entry, f: Entry)
    ensures EntryCandidates(env, ["s"], dir, [e, f]) ==
      CandidatesAt(env, ["s"], dir, e) + CandidatesAt(env, ["s"], dir, f)
  {
    assert [e, f][1..] == [f];
    OneEntry(env, dir, f);
  }

  /** A lone `a/.gpg` takes the name of its folder. */
  lemma EmptyStemCounterexample(env: Env, data: Bytes, plain: Bytes)
    requires Simple(env, data, plain)
    ensures var root := Folder([Entry("a", Folder([Encrypted(".gpg", data)], false))], false);
      && Listed(root) && Rooted(env.source)
      && var result := PlaceAll(EMPTY_TREE, Placements(env, env.source, root));
         !Shows(result.tree, Candidates(env, ["s"], [], root))
  {
    var folder := Entry("a", Folder([Encrypted(".gpg", data)], false));
    var root := Folder([folder], false);
    NamesValid();
    NamesEncrypted();
    OneListed(Encrypted(".gpg", data));
    OneListed(folder);
    FileGives(env, data, plain, ["a"], ".gpg", "");
    OneEntry(env, ["a"], Encrypted(".gpg", data));
    OneEntry(env, [], folder);
    assert [] + ["a"] == ["a"];
    var cs := Candidates(env, ["s"], [], root);
    assert cs == [Plain(["a"], "", plain)];
    assert cs[0].stem == "" && !AllFaithful(["s"], cs);
    WalkGivesCandidates(env, ["s"], root);
    MountsExactlyFaithful(["s"], cs);
  }

  /** The files of a folder `a` with `.gpg` and `b.gpg` in it. */
  lemma TwoInFolder(env: Env, data: Bytes, plain: Bytes)
    requires Simple(env, data, plain)
    ensures var root := Folder([Entry("a", Folder([Encrypted(".gpg", data), Encrypted("b.gpg", data)], false))], false);
      Listed(root) && Candidates(env, ["s"], [], root) == [Plain(["a"], "", plain), Plain(["a"], "b", plain)]
  {
    var inner := [Encrypted(".gpg", data), Encrypted("b.gpg", data)];
    var folder := Entry("a", Folder(inner, false));
    NamesValid();
    NamesSorted();
    NamesEncrypted();
    TwoListed(inner[0], inner[1]);
    OneListed(folder);
    FileGives(env, data, plain, ["a"], ".gpg", "");
    FileGives(env, data, plain, ["a"], "b.gpg", "b");
    TwoEntries(env, ["a"], inner[0], inner[1]);
    OneEntry(env, [], folder);
    assert [] + ["a"] == ["a"];
  }

  /** With `a/b.gpg` beside it, the file `a` is in the way of a directory `a`, and Preload panics. */
  lemma EmptyStemPanics(env: Env, data: Bytes, plain: Bytes)
    requires Simple(env, data, plain)
    ensures var root := Folder([Entry("a", Folder([Encrypted(".gpg", data), Encrypted("b.gpg", data)], false))], false);
      Listed(root) && Rooted(env.source) && PlaceAll(EMPTY_TREE, Placements(env, env.source, root)).end == Panicked
  {
    var root := Folder([Entry("a", Folder([Encrypted(".gpg", data), Encrypted("b.gpg", data)], false))], false);
    NamesValid();
    TwoInFolder(env, data, plain);
    WalkGivesCandidates(env, ["s"], root);
    BlockedByFolderName(plain);
  }

  lemma BlockedByFolderName(plain: Bytes)
    ensures var cs := [Plain(["a"], "", plain), Plain(["a"], "b", plain)];
      PlaceAll(EMPTY_TREE, PlacementsOf(["s"], cs)).end == Panicked
  {
    var ps := PlacementsOf(["s"], [Plain(["a"], "", plain), Plain(["a"], "b", plain)]);
    assert ps[0] == Placement([], "a", plain, Absent) && ps[0].At() == ["a"];
    assert ps[1] == Placement(["a"], "b", plain, Absent);
    assert ps[..0] == [] && ps[..1] == [ps[0]];
    assert VerdictAt(ps, 0) == Finished;
    assert FirstThere(ps[..1], 0) && FileAbove(ps[..1], ["a"]);
    assert TroubleAt(ps, 1);
    EndExactly(ps);
  }

  /** The files of a folder `a` with one file in it, beside `a.gpg`. */
  lemma FolderBesideFile(
      env: Env, name: string, stem: string, data: Bytes, plain: Bytes, other: Bytes, secret: Bytes)
    requires Simple(env, data, plain) && Simple(env, other, secret)
    requires ValidName(name) && name == stem + ENCRYPTED_SUFFIX
    ensures var folder := Entry("a", Folder([Encrypted(name, data)], false));
      var root := Folder([folder, Encrypted("a.gpg", other)], false);
      Listed(root) && Candidates(env, ["s"], [], root) == [Plain(["a"], stem, plain), Plain([], "a", secret)]
  {
    var inner := [Encrypted(name, data)];
    var outer := [Entry("a", Folder(inner, false)), Encrypted("a.gpg", other)];
    NamesValid();
    NamesSorted();
    NamesEncrypted();
    OneListed(inner[0]);
    TwoListed(outer[0], outer[1]);
    FileGives(env, data, plain, ["a"], name, stem);
    FileGives(env, other, secret, [], "a.gpg", "a");
    OneEntry(env, ["a"], inner[0]);
    TwoEntries(env, [], outer[0], outer[1]);
    assert [] + ["a"] == ["a"];
  }

  /** `a.gpg` beside a folder `a` with a mountable file: all is mounted as declared, but `a` is hidden. */
  lemma HiddenFileCounterexample(env: Env, data: Bytes, plain: Bytes)
    requires Simple(env, data, plain)
    ensures var folder := Entry("a", Folder([Encrypted("b.gpg", data)], false));
      var root := Folder([folder, Encrypted("a.gpg", data)], false);
      && Listed(root) && Rooted(env.source)
      && var cs, result := Candidates(env, ["s"], [], root), PlaceAll(EMPTY_TREE, Placements(env, env.source, root));
         && result.ok && Shows(result.tree, cs)
         && cs == [Plain(["a"], "b", plain), Plain([], "a", plain)] && !Visible(result.tree, cs[1])
  {
    var folder := Entry("a", Folder([Encrypted("b.gpg", data)], false));
    var root := Folder([folder, Encrypted("a.gpg", data)], false);
    NamesValid();
    NamesEncrypted();
    FolderBesideFile(env, "b.gpg", "b", data, plain, data, plain);
    PreloadMeetsSpecification(env, ["s"], root);
    FolderHides(PlaceAll(EMPTY_TREE, Placements(env, env.source, root)).tree, plain);
  }

  lemma FolderHides(tree: Tree, plain: Bytes)
    ensures var cs := [Plain(["a"], "b", plain), Plain([], "a", plain)];
      && AllLoad(cs) && AllFaithful(["s"], cs)
      && (Shows(tree, cs) ==> !Visible(tree, cs[1]))
  {
    var cs := [Plain(["a"], "b", plain), Plain([], "a", plain)];
    assert cs[1].Target() == ["a"] == cs[0].dir;
    assert Shows(tree, cs) ==> ShowsAt(tree, cs, ["a"], Directory);
  }

  /** `a/.gpg` and `a.gpg` get the same place; the one walked first keeps it, the other is not mounted. */
  lemma SharedPlaceCounterexample(env: Env, data: Bytes, plain: Bytes, other: Bytes, secret: Bytes)
    requires Simple(env, data, plain) && Simple(env, other, secret) && plain != secret
    ensures var folder := Entry("a", Folder([Encrypted(".gpg", data)], false));
      var root := Folder([folder, Encrypted("a.gpg", other)], false);
      && Listed(root) && Rooted(env.source)
      && var cs, result := Candidates(env, ["s"], [], root), PlaceAll(EMPTY_TREE, Placements(env, env.source, root));
         && cs == [Plain(["a"], "", plain), Plain([], "a", secret)]
         && result == Mounted(map[[] := Directory, ["a"] := File(plain, DEFAULT_ATTR)], Finished)
         && !Visible(result.tree, cs[1])
  {
    var folder := Entry("a", Folder([Encrypted(".gpg", data)], false));
    var root := Folder([folder, Encrypted("a.gpg", other)], false);
    NamesValid();
    NamesEncrypted();
    FolderBesideFile(env, ".gpg", "", data, plain, other, secret);
    WalkGivesCandidates(env, ["s"], root);
    FirstKeepsThePlace(plain, secret);
  }

  lemma FirstKeepsThePlace(plain: Bytes, secret: Bytes)
    ensures PlaceAll(EMPTY_TREE, PlacementsOf(["s"], [Plain(["a"], "", plain), Plain([], "a", secret)]))
         == Mounted(map[[] := Directory, ["a"] := File(plain, DEFAULT_ATTR)], Finished)
  {
    var ps := PlacementsOf(["s"], [Plain(["a"], "", plain), Plain([], "a", secret)]);
    var p, q := Placement([], "a", plain, Absent), Placement([], "a", secret, Absent);
    assert ps == [p, q];
    assert [p, q][..1] == [p] && [p][..0] == [];
    var tree: Tree := map[[] := Directory, ["a"] := File(plain, DEFAULT_ATTR)];
    PlaceInRoot(EMPTY_TREE, p);
    PlaceInRoot(tree, q);
    assert EMPTY_TREE[["a"] := File(plain, DEFAULT_ATTR)] == tree;
    assert PlaceAll(EMPTY_TREE, [p]) == Place(EMPTY_TREE, p) == Mounted(tree, Finished);
    assert PlaceAll(EMPTY_TREE, [p, q]) == Place(tree, q);
  }

  lemma PlaceInRoot(tree: Tree, p: Placement)
    requires p.dirs == [] && [] in tree && tree[[]] == Directory && !p.load.Failed?
    ensures Place(tree, p) == Mounted(if [p.base] in tree then tree else tree[[p.base] := p.Inode()], Finished)
  {
    assert p.At() == [p.base];
    assert p.dirs[..0] == p.dirs;
    assert WithDirs(tree, []) == tree;
  }

  // ------------------------------------------------------------- sidecars

  /** The store of one file `a.gpg`. */
  lemma OneFile(env: Env, data: Bytes, plain: Bytes, load: AttrLoad)
    requires env.source == Absolute(["s"]) && env.decrypt(data) == Some(plain) && env.attrs("/s/a.yml") == load
    ensures var root := Folder([Encrypted("a.gpg", data)], false);
      Listed(root) && Candidates(env, ["s"], [], root) == [Candidate([], "a", plain, load)]
  {
    var e := Encrypted("a.gpg", data);
    NamesValid();
    NamesEncrypted();
    OneListed(e);
    OneEntry(env, [], e);
    assert "a.gpg"[1..] == ENCRYPTED_SUFFIX && "a.gpg"[..1] == "a";
    assert ["s"] + [] + ["a"] == ["s", "a"] && ["s", "a"][1..] == ["a"];
    assert Absolute(["s", "a"]) + ATTR_SUFFIX == "/s/a.yml";
  }

  /** `a.gpg` with a sidecar `a.yml` beside it: the file has exactly the sidecar's attributes. */
  lemma SidecarExample(env: Env, data: Bytes, plain: Bytes, a: Attr)
    requires env.source == Absolute(["s"]) && env.decrypt(data) == Some(plain) && env.attrs("/s/a.yml") == Loaded(a)
    ensures var root := Folder([Encrypted("a.gpg", data)], false);
      && Listed(root) && Rooted(env.source)
      && PlaceAll(EMPTY_TREE, Placements(env, env.source, root)) ==
           Mounted(map[[] := Directory, ["a"] := File(plain, a)], Finished)
  {
    OneFile(env, data, plain, Loaded(a));
    WalkGivesCandidates(env, ["s"], Folder([Encrypted("a.gpg", data)], false));
    PlacementsOfOne(["s"], Candidate([], "a", plain, Loaded(a)));
    OneFilePlaced(plain, Loaded(a), a);
  }

  lemma OneFilePlaced(plain: Bytes, load: AttrLoad, a: Attr)
    requires load == Loaded(a) || (load == Absent && a == DEFAULT_ATTR)
    ensures PlaceAll(EMPTY_TREE, [PlacementOf(["s"], Candidate([], "a", plain, load))]) ==
      Mounted(map[[] := Directory, ["a"] := File(plain, a)], Finished)
  {
    var p := Placement([], "a", plain, load);
    assert PlacementOf(["s"], Candidate([], "a", plain, load)) == p;
    assert [p][..0] == [];
    PlaceInRoot(EMPTY_TREE, p);
    assert PlaceAll(EMPTY_TREE, [p]) == Place(EMPTY_TREE, p);
    assert EMPTY_TREE[["a"] := File(plain, a)] == map[[] := Directory, ["a"] := File(plain, a)];
  }

  // --------------------------------------------- which failure comes first

  /**
   A file inode at `a` blocks what is below it. Its own directory is found before the sidecar is looked
   at and the file is added after: a broken sidecar of `a/b.gpg` stops the walk, one of `a/b/c.gpg`
   comes too late.
   */
  lemma SidecarBeforePanic(plain: Bytes)
    ensures var first := Placement([], "a", plain, Absent);
      && PlaceAll(EMPTY_TREE, [first, Placement(["a"], "b", plain, Failed)]).end == Stopped
      && PlaceAll(EMPTY_TREE, [first, Placement(["a"], "b", plain, Absent)]).end == Panicked
      && PlaceAll(EMPTY_TREE, [first, Placement(["a", "b"], "c", plain, Failed)]).end == Panicked
  {
    BelowFile(plain, ["a"], "b", Failed);
    BelowFile(plain, ["a"], "b", Absent);
    BelowFile(plain, ["a", "b"], "c", Failed);
  }

  lemma BelowFile(plain: Bytes, dirs: seq<string>, base: string, load: AttrLoad)
    requires dirs == ["a"] || dirs == ["a", "b"]
    ensures PlaceAll(EMPTY_TREE, [Placement([], "a", plain, Absent), Placement(dirs, base, plain, load)]).end ==
      if load.Failed? && |dirs| == 1 then Stopped else Panicked
  {
    var first, second := Placement([], "a", plain, Absent), Placement(dirs, base, plain, load);
    var tree: Tree := map[[] := Directory, ["a"] := File(plain, DEFAULT_ATTR)];
    OneFilePlaced(plain, Absent, DEFAULT_ATTR);
    assert first == PlacementOf(["s"], Candidate([], "a", plain, Absent));
    assert [first, second][..1] == [first];
    assert PlaceAll(EMPTY_TREE, [first, second]) == Place(tree, second);
    PlaceBelowFile(tree, second);
  }

  lemma PlaceBelowFile(tree: Tree, p: Placement)
    requires [] in tree && tree[[]] == Directory && FileThere(tree, ["a"])
    requires p.dirs == ["a"] || p.dirs == ["a", "b"]
    ensures Place(tree, p).end == if p.load.Failed? && |p.dirs| == 1 then Stopped else Panicked
  {
    var dirs := p.dirs;
    assert dirs[..1] == ["a"] && Blocked(tree, dirs);
    if |dirs| == 1 {
      assert dirs[..0] == [] && !FileThere(tree, []);
      assert forall i | 0 <= i <= 0 :: dirs[..0][..i] == [];
    } else {
      assert dirs[..1][..1] == ["a"] && Blocked(tree, dirs[..1]);
    }
  }
}
