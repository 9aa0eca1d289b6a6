/**
 The secret store as a value: the encrypted source directory, the tree of inodes that mounting it
 should give, and the proof that mounting the files one at a time in walk order gives that tree.
 */
module SecretTree {
  import opened Paths
  import opened Placing
  import opened Wrappers

  const ENCRYPTED_SUFFIX := ".gpg"
  const ATTR_SUFFIX := ".yml"

  // ----------------------------------------------------------------- source

  /** What is at a source path; a listing that breaks off still yields the entries read so far. */
  datatype Source =
    | Folder(entries: seq<Entry>, listingFailed: bool)
    | Regular(data: Option<Bytes>)  // None: the file cannot be read
    | Special                       // symbolic links, devices, sockets
    | Inaccessible                  // the root that cannot be examined

  datatype Entry = Entry(name: string, node: Source)

  /** The world outside: the cleaned absolute source path, decryption, and sidecars by path. */
  datatype Env = Env(source: string, decrypt: Bytes -> Option<Bytes>, attrs: string -> AttrLoad)

  /** Listings are sorted by name, so names are distinct. */
  ghost predicate Listed(node: Source) {
    node.Folder? ==> ListedEntries(node.entries)
  }

  ghost predicate ListedEntries(entries: seq<Entry>) {
    && (forall i | 0 <= i < |entries| :: ValidName(entries[i].name) && Listed(entries[i].node))
    && (forall i, j | 0 <= i < j < |entries| :: Less(entries[i].name, entries[j].name))
  }

  // --------------------------------------------- what the callback extracts

  /** Where a trimmed path belongs in the mounted tree: its directories and its name. */
  function PlaceAt(source: string, trimmed: string): Option<(seq<string>, string)>
    requires Rooted(source)
  {
    var rel := Rel(source, trimmed);
    if rel.None? then None
    else
      var (dir, base) := SplitFile(Clean(rel.value));
      Some((NonEmpty(Split(dir)), base))
  }

  /** What the callback makes of one regular file, in the order of its checks. */
  function PlacementAt(env: Env, path: string, data: Option<Bytes>): Option<Placement>
    requires Rooted(env.source)
  {
    if !HasSuffix(path, ENCRYPTED_SUFFIX) || data.None? || env.decrypt(data.value).None? then None
    else
      var trimmed := TrimSuffix(path, ENCRYPTED_SUFFIX);
      var place := PlaceAt(env.source, trimmed);
      if place.None? then None
      else Some(Placement(place.value.0, place.value.1, env.decrypt(data.value).value,
        env.attrs(trimmed + ATTR_SUFFIX)))
  }

  /** The placements a walk of `node` at `path` produces, in the order of the walk. */
  function Placements(env: Env, path: string, node: Source): seq<Placement>
    requires Rooted(env.source)
    decreases node
  {
    match node
    case Folder(entries, _) => EntryPlacements(env, path, entries)
    case Regular(data) =>
      (match PlacementAt(env, path, data) case None => [] case Some(p) => [p])
    case _ => []
  }

  function EntryPlacements(env: Env, path: string, entries: seq<Entry>): seq<Placement>
    requires Rooted(env.source)
    decreases entries
  {
    if entries == [] then []
    else Placements(env, JoinPath(path, entries[0].name), entries[0].node) + EntryPlacements(env, path, entries[1..])
  }

  // ------------------------------------------------------------- candidates

  /** A source file that can be mounted: its folder, its name without the suffix, its plaintext. */
  datatype Candidate = Candidate(dir: seq<string>, stem: string, content: Bytes, load: AttrLoad) {
    /** Where the file belongs in the mounted tree. */
    function Target(): seq<string> { dir + [stem] }
  }

  /** The regular, readable, decryptable files with the suffix below `node`, in listing order. */
  function Candidates(env: Env, above: seq<string>, dir: seq<string>, node: Source): seq<Candidate>
    decreases node
  {
    if node.Folder? then EntryCandidates(env, above, dir, node.entries) else []
  }

  function EntryCandidates(env: Env, above: seq<string>, dir: seq<string>, entries: seq<Entry>): seq<Candidate>
    decreases entries
  {
    if entries == [] then []
    else CandidatesAt(env, above, dir, entries[0]) + EntryCandidates(env, above, dir, entries[1..])
  }

  function CandidatesAt(env: Env, above: seq<string>, dir: seq<string>, e: Entry): seq<Candidate>
    decreases e
  {
    if e.node.Regular? then FileCandidate(env, above, dir, e.name, e.node.data)
    else Candidates(env, above, dir + [e.name], e.node)
  }

  function FileCandidate(env: Env, above: seq<string>, dir: seq<string>, name: string, data: Option<Bytes>)
    : seq<Candidate>
  {
    if !HasSuffix(name, ENCRYPTED_SUFFIX) || data.None? || env.decrypt(data.value).None? then []
    else
      var stem := TrimSuffix(name, ENCRYPTED_SUFFIX);
      [Candidate(dir, stem, env.decrypt(data.value).value, env.attrs(Absolute(above + dir + [stem]) + ATTR_SUFFIX))]
  }

  /** Where the relativised and cleaned path of a file really leads. */
  function Normal(above: seq<string>, dir: seq<string>, stem: string): (at: seq<string>)
    ensures at != []
  {
    if stem == "" || stem == "." then if dir == [] then ["."] else dir
    else if stem == ".." then
      if |dir| > 1 then dir[..|dir| - 1]
      else if dir == [] && above != [] then [".."]
      else ["."]
    else dir + [stem]
  }

  function PlacementOf(above: seq<string>, c: Candidate): Placement {
    var at := Normal(above, c.dir, c.stem);
    Placement(at[..|at| - 1], at[|at| - 1], c.content, c.load)
  }

  function PlacementsOf(above: seq<string>, cs: seq<Candidate>): (ps: seq<Placement>)
    ensures |ps| == |cs| && forall i | 0 <= i < |cs| :: ps[i] == PlacementOf(above, cs[i])
  {
    seq(|cs|, i requires 0 <= i < |cs| => PlacementOf(above, cs[i]))
  }

  lemma PlacementsOfAppend(above: seq<string>, a: seq<Candidate>, b: seq<Candidate>)
    ensures PlacementsOf(above, a + b) == PlacementsOf(above, a) + PlacementsOf(above, b)
  {
  }

  lemma PlacementsOfOne(above: seq<string>, c: Candidate)
    ensures PlacementsOf(above, [c]) == [PlacementOf(above, c)]
  {
  }

  /** The strings of the callback agree with the components of the source tree. */
  lemma PlacementAtFile(env: Env, above: seq<string>, dir: seq<string>, name: string, data: Option<Bytes>)
    requires env.source == Absolute(above) && ValidNames(above) && ValidNames(dir) && ValidName(name)
    ensures Rooted(env.source)
    ensures (match PlacementAt(env, Absolute(above + dir + [name]), data) case None => [] case Some(p) => [p])
         == PlacementsOf(above, FileCandidate(env, above, dir, name, data))
  {
    SuffixOfPath(above + dir, name, ENCRYPTED_SUFFIX);
    CleanAbsoluteNames(above);
    if HasSuffix(name, ENCRYPTED_SUFFIX) && data.Some? && env.decrypt(data.value).Some? {
      EncryptedPlacement(env, above, dir, name, data.value, env.decrypt(data.value).value);
      PlacementsOfOne(above, FileCandidate(env, above, dir, name, data)[0]);
    }
  }

  lemma EncryptedPlacement(env: Env, above: seq<string>, dir: seq<string>, name: string, data: Bytes, plain: Bytes)
    requires env.source == Absolute(above) && ValidNames(above) && ValidNames(dir) && ValidName(name)
    requires HasSuffix(name, ENCRYPTED_SUFFIX) && env.decrypt(data) == Some(plain)
    ensures Rooted(env.source) && |FileCandidate(env, above, dir, name, Some(data))| == 1
    ensures PlacementAt(env, Absolute(above + dir + [name]), Some(data))
         == Some(PlacementOf(above, FileCandidate(env, above, dir, name, Some(data))[0]))
  {
    var stem := TrimSuffix(name, ENCRYPTED_SUFFIX);
    SuffixOfPath(above + dir, name, ENCRYPTED_SUFFIX);
    assert TrimSuffix(Absolute(above + dir + [name]), ENCRYPTED_SUFFIX) == Absolute(above + dir + [stem]);
    PlaceOfPath(above, dir, stem);
  }

  lemma PlaceOfPath(above: seq<string>, dir: seq<string>, stem: string)
    requires ValidNames(above) && ValidNames(dir) && '/' !in stem
    ensures Rooted(Absolute(above))
    ensures var at := Normal(above, dir, stem);
      PlaceAt(Absolute(above), Absolute(above + dir + [stem])) == Some((at[..|at| - 1], at[|at| - 1]))
  {
    RelOfFile(above, dir, stem);
    PlaceOfFile(above, dir, stem);
  }

  lemma PlaceOfFile(above: seq<string>, dir: seq<string>, stem: string)
    requires ValidNames(above) && ValidNames(dir) && '/' !in stem
    ensures var at := Normal(above, dir, stem);
      var split := SplitFile(Clean(Join(at)));
      NonEmpty(Split(split.0)) == at[..|at| - 1] && split.1 == at[|at| - 1]
  {
    var at := Normal(above, dir, stem);
    CleanRelative(above, dir, stem);
    SplitFileJoin(at[..|at| - 1], at[|at| - 1]);
    assert at[..|at| - 1] + [at[|at| - 1]] == at;
  }

  lemma RelOfFile(above: seq<string>, dir: seq<string>, stem: string)
    requires ValidNames(above) && ValidNames(dir) && '/' !in stem
    ensures Rooted(Absolute(above)) && Rooted(Absolute(above + dir + [stem]))
    ensures Rel(Absolute(above), Absolute(above + dir + [stem])) == Some(Join(Normal(above, dir, stem)))
  {
    CleanAbsoluteNames(above);
    CleanAbsolute(above + dir, stem);
    if stem == "" || stem == "." {
      RelBelow(above, dir);
    } else if stem != ".." {
      assert Push(true, above + dir, stem) == above + (dir + [stem]);
      RelBelow(above, dir + [stem]);
    } else {
      RelOfParent(above, dir);
    }
  }

  lemma RelOfParent(above: seq<string>, dir: seq<string>)
    requires ValidNames(above) && ValidNames(dir)
    ensures RelativeTo(above, Push(true, above + dir, "..")) == Join(Normal(above, dir, ".."))
  {
    PushParent(above + dir);
    if dir == [] {
      assert above + dir == above;
      RelAbove(above, Push(true, above, ".."));
    } else {
      assert (above + dir)[..|above + dir| - 1] == above + dir[..|dir| - 1];
      RelBelow(above, dir[..|dir| - 1]);
    }
  }

  lemma PushParent(names: seq<string>)
    requires ValidNames(names)
    ensures Push(true, names, "..") == if names == [] then [] else names[..|names| - 1]
  {
  }

  lemma RelBelow(above: seq<string>, tail: seq<string>)
    ensures RelativeTo(above, above + tail) == Relative(tail)
  {
    CommonPrefixIs(above, above + tail, |above|);
    assert Ups(0) + tail == tail;
  }

  lemma RelAbove(above: seq<string>, t: seq<string>)
    requires t == if above == [] then [] else above[..|above| - 1]
    ensures RelativeTo(above, t) == if above == [] then "." else ".."
  {
    CommonPrefixIs(above, t, |t|);
    assert t[|t|..] == [];
    assert Ups(|above| - |t|) + [] == if above == [] then [] else [".."];
  }

  lemma CleanRelative(above: seq<string>, dir: seq<string>, stem: string)
    requires ValidNames(above) && ValidNames(dir) && '/' !in stem
    ensures var at := Normal(above, dir, stem);
      Clean(Join(at)) == Join(at) && SlashFree(at) && forall i | 0 <= i < |at| :: at[i] != ""
  {
    var at := Normal(above, dir, stem);
    SplitJoin(at);
    assert Rooted(Join(at)) == false by {
      assert Join(at)[..|at[0]|] == at[0];
    }
    if at == ["."] {
      assert ["."][1..] == [];
      assert Resolve(false, at, []) == Resolve(false, [], []);
    } else {
      ResolveRelative(at, []);
      assert [] + at == at;
    }
  }

  lemma {:induction false} PlacementsAreCandidates(env: Env, above: seq<string>, dir: seq<string>, node: Source)
    requires env.source == Absolute(above) && ValidNames(above) && ValidNames(dir)
    requires node.Folder? && Listed(node)
    ensures Rooted(env.source)
    ensures Placements(env, Absolute(above + dir), node) == PlacementsOf(above, Candidates(env, above, dir, node))
    decreases node
  {
    CleanAbsoluteNames(above);
    EntryPlacementsAreCandidates(env, above, dir, node.entries);
  }

  lemma {:induction false} EntryPlacementsAreCandidates(env: Env, above: seq<string>, dir: seq<string>,
    entries: seq<Entry>)
    requires env.source == Absolute(above) && ValidNames(above) && ValidNames(dir)
    requires ListedEntries(entries) && Rooted(env.source)
    ensures EntryPlacements(env, Absolute(above + dir), entries) ==
      PlacementsOf(above, EntryCandidates(env, above, dir, entries))
    decreases entries
  {
    if entries == [] {
    } else {
      EntryPlacementIsCandidate(env, above, dir, entries[0]);
      EntryPlacementsAreCandidates(env, above, dir, entries[1..]);
      PlacementsOfAppend(above, CandidatesAt(env, above, dir, entries[0]),
        EntryCandidates(env, above, dir, entries[1..]));
    }
  }

  lemma {:induction false} EntryPlacementIsCandidate(env: Env, above: seq<string>, dir: seq<string>, e: Entry)
    requires env.source == Absolute(above) && ValidNames(above) && ValidNames(dir)
    requires ValidName(e.name) && Listed(e.node) && Rooted(env.source)
    ensures Placements(env, JoinPath(Absolute(above + dir), e.name), e.node) ==
      PlacementsOf(above, CandidatesAt(env, above, dir, e))
    decreases e
  {
    JoinPathAbsolute(above + dir, e.name);
    match e.node
    case Regular(data) => PlacementAtFile(env, above, dir, e.name, data);
    case Folder(_, _) =>
      assert above + dir + [e.name] == above + (dir + [e.name]);
      PlacementsAreCandidates(env, above, dir + [e.name], e.node);
    case _ =>
  }

  // ------------------------------------------------------------- walk order

  /** No file belongs at or above the target of a later one. */
  ghost predicate Ordered(cs: seq<Candidate>) {
    forall i, j | 0 <= i < j < |cs| :: !(cs[i].Target() <= cs[j].Target())
  }

  ghost predicate WellNamed(cs: seq<Candidate>) {
    forall i | 0 <= i < |cs| :: ValidNames(cs[i].dir) && '/' !in cs[i].stem
  }

  /** Candidate `c` was found below entry `e` of the folder `dir`. */
  ghost predicate FoundAt(dir: seq<string>, e: Entry, c: Candidate) {
    || (c.dir == dir && e.name == c.stem + ENCRYPTED_SUFFIX)
    || (|c.dir| > |dir| && c.dir[..|dir|] == dir && c.dir[|dir|] == e.name)
  }

  lemma {:induction false} FoundSomewhere(env: Env, above: seq<string>, dir: seq<string>, entries: seq<Entry>)
    requires ListedEntries(entries) && ValidNames(dir)
    ensures var cs := EntryCandidates(env, above, dir, entries);
      && WellNamed(cs)
      && forall i | 0 <= i < |cs| :: exists k :: 0 <= k < |entries| && FoundAt(dir, entries[k], cs[i])
    decreases entries
  {
    if entries == [] {
    } else {
      var e := entries[0];
      var head, tail := CandidatesAt(env, above, dir, e), EntryCandidates(env, above, dir, entries[1..]);
      FoundSomewhere(env, above, dir, entries[1..]);
      FoundBelow(env, above, dir, e);
      forall i | 0 <= i < |head + tail|
        ensures exists k :: 0 <= k < |entries| && FoundAt(dir, entries[k], (head + tail)[i])
      {
        if i < |head| {
          assert FoundAt(dir, entries[0], head[i]);
        } else {
          var k :| 0 <= k < |entries[1..]| && FoundAt(dir, entries[1..][k], tail[i - |head|]);
          assert FoundAt(dir, entries[k + 1], tail[i - |head|]);
        }
      }
    }
  }

  lemma {:induction false} FoundBelow(env: Env, above: seq<string>, dir: seq<string>, e: Entry)
    requires ValidName(e.name) && Listed(e.node) && ValidNames(dir)
    ensures var cs := CandidatesAt(env, above, dir, e);
      WellNamed(cs) && forall i | 0 <= i < |cs| :: FoundAt(dir, e, cs[i])
    decreases e
  {
    if e.node.Folder? {
      var cs := CandidatesAt(env, above, dir, e);
      FoundSomewhere(env, above, dir + [e.name], e.node.entries);
      forall i | 0 <= i < |cs| ensures FoundAt(dir, e, cs[i]) {
        assert cs[i].dir[..|dir| + 1] == dir + [e.name];
        assert cs[i].dir[..|dir|] == cs[i].dir[..|dir| + 1][..|dir|];
      }
    }
  }

  lemma PrefixAgrees(a: seq<string>, b: seq<string>, i: nat)
    requires i < |a|
    ensures a <= b ==> i < |b| && a[i] == b[i]
  {
  }

  /** Listing order decides: everything below folder `a` is walked before the file `a.gpg`. */
  lemma EntriesApart(dir: seq<string>, e: Entry, f: Entry, c: Candidate, d: Candidate)
    requires FoundAt(dir, e, c) && FoundAt(dir, f, d) && Less(e.name, f.name)
    ensures !(c.Target() <= d.Target())
  {
    ExtensionNotLess(e.name, "");
    assert e.name + "" == e.name;
    ExtensionNotLess(f.name, ENCRYPTED_SUFFIX);
    PrefixAgrees(c.Target(), d.Target(), |dir|);
  }

  lemma {:induction false} WalkOrdered(env: Env, above: seq<string>, dir: seq<string>, entries: seq<Entry>)
    requires ListedEntries(entries) && ValidNames(dir)
    ensures Ordered(EntryCandidates(env, above, dir, entries))
    decreases entries
  {
    if entries == [] {
    } else {
      var e := entries[0];
      var head, tail := CandidatesAt(env, above, dir, e), EntryCandidates(env, above, dir, entries[1..]);
      var cs := EntryCandidates(env, above, dir, entries);
      assert cs == head + tail;
      if e.node.Folder? {
        WalkOrdered(env, above, dir + [e.name], e.node.entries);
      }
      WalkOrdered(env, above, dir, entries[1..]);
      FoundBelow(env, above, dir, e);
      FoundSomewhere(env, above, dir, entries[1..]);
      forall i, j | 0 <= i < |head| && 0 <= j < |tail| ensures !(head[i].Target() <= tail[j].Target()) {
        var k :| 0 <= k < |entries[1..]| && FoundAt(dir, entries[1..][k], tail[j]);
        EntriesApart(dir, e, entries[k + 1], head[i], tail[j]);
      }
      forall i, j | 0 <= i < j < |cs| ensures !(cs[i].Target() <= cs[j].Target()) {
        if j < |head| {
          assert !(head[i].Target() <= head[j].Target());
        } else if i < |head| {
          assert !(head[i].Target() <= tail[j - |head|].Target());
        } else {
          assert !(tail[i - |head|].Target() <= tail[j - |head|].Target());
        }
      }
    }
  }

  // ------------------------------------------------- the tree as it should be

  /** Some candidate lies strictly below `p`, so `p` must be a directory. */
  ghost predicate DirAt(cs: seq<Candidate>, p: seq<string>) {
    p == [] || exists i :: 0 <= i < |cs| && p <= cs[i].dir
  }

  /** `node` is the decrypted form of a candidate that belongs at `p`, and nothing lies below `p`. */
  ghost predicate FileAt(cs: seq<Candidate>, p: seq<string>, node: Node) {
    !DirAt(cs, p) &&
    exists i :: 0 <= i < |cs| && cs[i].Target() == p && node == File(cs[i].content, AttrOf(cs[i].load))
  }

  /** The declarative meaning of a mounted store: every path resolves to what the source says. */
  ghost predicate Shows(tree: Tree, cs: seq<Candidate>) {
    forall p, node :: ShowsAt(tree, cs, p, node)
  }

  ghost predicate ShowsAt(tree: Tree, cs: seq<Candidate>, p: seq<string>, node: Node) {
    p in tree && tree[p] == node <==> if node.Directory? then DirAt(cs, p) else FileAt(cs, p, node)
  }

  /** The file's own name survives relativising and cleaning. */
  predicate Faithful(above: seq<string>, c: Candidate) {
    && c.stem != ""
    && (c.stem == "." ==> c.dir == [])
    && (c.stem == ".." ==> c.dir == [] && above != [])
  }

  ghost predicate AllFaithful(above: seq<string>, cs: seq<Candidate>) {
    forall i | 0 <= i < |cs| :: Faithful(above, cs[i])
  }

  lemma FaithfulExactly(above: seq<string>, c: Candidate)
    requires ValidNames(c.dir)
    ensures Faithful(above, c) <==> Normal(above, c.dir, c.stem) == c.Target()
  {
    var at := Normal(above, c.dir, c.stem);
    assert c.Target()[|c.dir|] == c.stem;
    if Faithful(above, c) {
      assert c.dir == [] ==> c.Target() == [c.stem];
    } else {
      assert |at| > |c.dir| ==> at[|c.dir|] != c.stem;
    }
  }

  ghost predicate AllLoad(cs: seq<Candidate>) { LoadUpTo(cs, |cs|) }

  ghost predicate LoadUpTo(cs: seq<Candidate>, k: nat)
    requires k <= |cs|
  {
    forall i | 0 <= i < k :: !cs[i].load.Failed?
  }

  /**
   When a file's turn comes, no component of its path resolves to a file: each is missing or
   already a directory.
   */
  lemma ComponentsAreDirectories(tree: Tree, cs: seq<Candidate>, k: nat, p: seq<string>)
    requires Ordered(cs) && k < |cs| && Shows(tree, cs[..k]) && p <= cs[k].dir
    ensures p in tree ==> tree[p] == Directory
  {
    forall i | 0 <= i < k ensures cs[..k][i].Target() != p {
      assert !(cs[i].Target() <= cs[k].Target());
    }
    assert p in tree ==> ShowsAt(tree, cs[..k], p, tree[p]);
  }

  /** Where a candidate goes if nothing happens to its name. */
  function Own(c: Candidate): Placement {
    Placement(c.dir, c.stem, c.content, c.load)
  }

  lemma NotBlocked(tree: Tree, cs: seq<Candidate>, k: nat)
    requires Ordered(cs) && k < |cs| && Shows(tree, cs[..k])
    ensures !Blocked(tree, cs[k].dir)
    ensures Place(tree, Own(cs[k])) ==
      if cs[k].load.Failed? then Mounted(WithDirs(tree, cs[k].dir), Stopped)
      else Mounted(PlacedTree(tree, Own(cs[k])), Finished)
  {
    var dir := cs[k].dir;
    forall i | 0 <= i <= |dir| ensures !FileThere(tree, dir[..i]) {
      ComponentsAreDirectories(tree, cs, k, dir[..i]);
    }
    if dir != [] {
      var front := dir[..|dir| - 1];
      assert forall i | 0 <= i <= |front| :: front[..i] == dir[..i];
    }
  }

  lemma PlaceShows(tree: Tree, cs: seq<Candidate>, k: nat)
    requires Ordered(cs) && k < |cs| && Shows(tree, cs[..k]) && !cs[k].load.Failed?
    ensures Shows(PlacedTree(tree, Own(cs[k])), cs[..k + 1])
  {
    var c, before, after := cs[k], cs[..k], cs[..k + 1];
    assert after == before + [c];
    var result := PlacedTree(tree, Own(c));
    forall p, node ensures ShowsAt(result, after, p, node) {
      PlaceShowsAt(tree, cs, k, p, node);
    }
  }

  lemma PlaceShowsAt(tree: Tree, cs: seq<Candidate>, k: nat, p: seq<string>, node: Node)
    requires Ordered(cs) && k < |cs| && Shows(tree, cs[..k]) && !cs[k].load.Failed?
    ensures ShowsAt(PlacedTree(tree, Own(cs[k])), cs[..k + 1], p, node)
  {
    var c, before := cs[k], cs[..k];
    DirAtNext(cs, k, p);
    FileAtNext(cs, k, p, node);
    if p <= c.dir {
      ComponentsAreDirectories(tree, cs, k, p);
    }
    assert ShowsAt(tree, before, p, Directory) && ShowsAt(tree, before, p, node);
    if p == c.Target() {
      assert !(p <= c.dir);
      NotYetThere(tree, cs, k);
    }
  }

  lemma DirAtNext(cs: seq<Candidate>, k: nat, p: seq<string>)
    requires k < |cs|
    ensures DirAt(cs[..k + 1], p) <==> DirAt(cs[..k], p) || p <= cs[k].dir
  {
    var before, after := cs[..k], cs[..k + 1];
    assert after[k] == cs[k] && forall i | 0 <= i < k :: after[i] == before[i];
  }

  lemma FileAtNext(cs: seq<Candidate>, k: nat, p: seq<string>, node: Node)
    requires Ordered(cs) && k < |cs|
    ensures DirAt(cs[..k + 1], p) ==> !FileAt(cs[..k + 1], p, node)
    ensures !DirAt(cs[..k + 1], p) && p == cs[k].Target() ==>
      (FileAt(cs[..k + 1], p, node) <==> node == File(cs[k].content, AttrOf(cs[k].load)))
    ensures !DirAt(cs[..k + 1], p) && p != cs[k].Target() ==>
      (FileAt(cs[..k + 1], p, node) <==> FileAt(cs[..k], p, node))
  {
    var before, after := cs[..k], cs[..k + 1];
    DirAtNext(cs, k, p);
    assert after[k] == cs[k] && forall i | 0 <= i < k :: after[i] == before[i] == cs[i];
    if p == cs[k].Target() {
      assert forall i | 0 <= i < k :: !(cs[i].Target() <= cs[k].Target());
    }
  }

  /** Nothing but a directory can be where the next file goes. */
  lemma NotYetThere(tree: Tree, cs: seq<Candidate>, k: nat)
    requires Ordered(cs) && k < |cs| && Shows(tree, cs[..k])
    ensures cs[k].Target() in tree ==> tree[cs[k].Target()] == Directory
  {
    var p := cs[k].Target();
    forall i | 0 <= i < k ensures cs[..k][i].Target() != p {
      assert !(cs[i].Target() <= cs[k].Target());
    }
    assert p in tree ==> ShowsAt(tree, cs[..k], p, tree[p]);
  }

  // ---------------------------------------------------------- main theorems

  /** Mounting the first `k` candidates. */
  ghost function MountUpTo(above: seq<string>, cs: seq<Candidate>, k: nat): Mounted
    requires k <= |cs|
  {
    if k == 0 then Mounted(EMPTY_TREE, Finished)
    else
      var before := MountUpTo(above, cs, k - 1);
      if before.ok then Place(before.tree, PlacementOf(above, cs[k - 1])) else before
  }

  lemma {:induction false} MountUpToIsPlaceAll(above: seq<string>, cs: seq<Candidate>, k: nat)
    requires k <= |cs|
    ensures MountUpTo(above, cs, k) == PlaceAll(EMPTY_TREE, PlacementsOf(above, cs[..k]))
  {
    if k == 0 {
    } else {
      MountUpToIsPlaceAll(above, cs, k - 1);
      var ps := PlacementsOf(above, cs[..k]);
      assert ps[..|ps| - 1] == PlacementsOf(above, cs[..k - 1]);
    }
  }

  /** Every intermediate tree of a run without sidecar errors shows exactly the files so far. */
  lemma EveryPrefixShows(above: seq<string>, cs: seq<Candidate>, k: nat)
    requires Ordered(cs) && WellNamed(cs) && AllFaithful(above, cs) && k <= |cs| && LoadUpTo(cs, k)
    ensures MountUpTo(above, cs, k).ok && Shows(MountUpTo(above, cs, k).tree, cs[..k])
  {
    var shows := (tree: Tree, i: nat) => i <= |cs| && Shows(tree, cs[..i]);
    EmptyShows(cs);
    forall tree: Tree, i: nat | i < k && shows(tree, i)
      ensures Kept(shows, Place(tree, PlacementOf(above, cs[i])), i + 1)
    {
      PlaceFaithful(above, tree, cs, i);
    }
    MountKeeps(above, cs, shows, k);
  }

  lemma EmptyShows(cs: seq<Candidate>)
    ensures Shows(EMPTY_TREE, cs[..0])
  {
    forall p, node ensures ShowsAt(EMPTY_TREE, cs[..0], p, node) {
    }
  }

  ghost predicate Kept(inv: (Tree, nat) -> bool, m: Mounted, k: nat) {
    m.ok && inv(m.tree, k)
  }

  /** What holds of the empty tree and is kept by each file holds after all of them. */
  lemma {:induction false} MountKeeps(above: seq<string>, cs: seq<Candidate>, inv: (Tree, nat) -> bool, n: nat)
    requires n <= |cs| && inv(EMPTY_TREE, 0)
    requires forall tree: Tree, k: nat | k < n && inv(tree, k) ::
      Kept(inv, Place(tree, PlacementOf(above, cs[k])), k + 1)
    ensures Kept(inv, MountUpTo(above, cs, n), n)
    decreases n
  {
    if n == 0 {
    } else {
      MountKeeps(above, cs, inv, n - 1);
      MountNext(above, cs, n - 1);
    }
  }

  lemma MountNext(above: seq<string>, cs: seq<Candidate>, k: nat)
    requires k < |cs| && MountUpTo(above, cs, k).ok
    ensures MountUpTo(above, cs, k + 1) == Place(MountUpTo(above, cs, k).tree, PlacementOf(above, cs[k]))
    ensures cs[k].load.Failed? ==> !MountUpTo(above, cs, k + 1).ok
  {
  }

  lemma PlaceFaithful(above: seq<string>, tree: Tree, cs: seq<Candidate>, k: nat)
    requires Ordered(cs) && k < |cs| && Shows(tree, cs[..k]) && !cs[k].load.Failed?
    requires Faithful(above, cs[k]) && ValidNames(cs[k].dir)
    ensures var after := Place(tree, PlacementOf(above, cs[k])); after.ok && Shows(after.tree, cs[..k + 1])
  {
    FaithfulPlacement(above, cs[k]);
    NotBlocked(tree, cs, k);
    PlaceShows(tree, cs, k);
  }

  lemma FaithfulPlacement(above: seq<string>, c: Candidate)
    requires Faithful(above, c) && ValidNames(c.dir)
    ensures PlacementOf(above, c) == Own(c)
  {
    FaithfulExactly(above, c);
    assert c.Target()[..|c.Target()| - 1] == c.dir;
  }

  /** No file stands in the way of a later one, whatever has become of their names. */
  ghost predicate Clear(above: seq<string>, cs: seq<Candidate>) {
    var ps := PlacementsOf(above, cs);
    forall k: nat | k < |cs| :: !FileAbove(ps[..k], ps[k].dirs)
  }

  /** For any names: the walk finishes exactly when every sidecar loads and no file is in the way. */
  lemma FinishesExactly(above: seq<string>, cs: seq<Candidate>)
    ensures PlaceAll(EMPTY_TREE, PlacementsOf(above, cs)).ok <==> AllLoad(cs) && Clear(above, cs)
  {
    var ps := PlacementsOf(above, cs);
    EndExactly(ps);
    forall k: nat | k < |cs|
      ensures VerdictAt(ps, k) == Finished <==> !cs[k].load.Failed? && !FileAbove(ps[..k], ps[k].dirs)
    {
      VerdictFinished(ps, k);
    }
  }

  lemma VerdictFinished(ps: seq<Placement>, k: nat)
    requires k < |ps|
    ensures VerdictAt(ps, k) == Finished <==> !ps[k].load.Failed? && !FileAbove(ps[..k], ps[k].dirs)
  {
    FileAboveFront(ps[..k], ps[k].dirs);
  }

  lemma FileAboveFront(ps: seq<Placement>, dirs: seq<string>)
    ensures dirs != [] && FileAbove(ps, dirs[..|dirs| - 1]) ==> FileAbove(ps, dirs)
  {
    if dirs != [] && FileAbove(ps, dirs[..|dirs| - 1]) {
      var m: nat :| m < |ps| && ps[m].At() <= dirs[..|dirs| - 1] && FirstThere(ps, m);
      assert ps[m].At() <= dirs;
    }
  }

  /** Files that keep their names are never in each other's way. */
  lemma FaithfulIsClear(above: seq<string>, cs: seq<Candidate>)
    requires Ordered(cs) && WellNamed(cs) && AllFaithful(above, cs)
    ensures Clear(above, cs)
  {
    var ps := PlacementsOf(above, cs);
    forall k: nat, m: nat | k < |cs| && m < k ensures !(ps[..k][m].At() <= ps[k].dirs) {
      FaithfulPlacement(above, cs[k]);
      FaithfulPlacement(above, cs[m]);
      assert cs[k].dir <= cs[k].Target();
    }
  }

  lemma UnfaithfulUnreachable(above: seq<string>, c: Candidate, d: Candidate)
    requires ValidNames(c.dir) && ValidNames(d.dir) && !Faithful(above, c)
    ensures !(c.Target() <= Normal(above, d.dir, d.stem))
  {
    var at, n := Normal(above, d.dir, d.stem), |c.dir|;
    assert c.Target()[n] == c.stem;
    PrefixAgrees(c.Target(), at, n);
  }

  /**
   When every sidecar loads, the tree is the one the source describes if and only if every mountable
   file keeps its own name: a caller can check the stems before mounting.
   */
  lemma MountsExactlyFaithful(above: seq<string>, cs: seq<Candidate>)
    requires Ordered(cs) && WellNamed(cs)
    requires AllLoad(cs)
    ensures Shows(PlaceAll(EMPTY_TREE, PlacementsOf(above, cs)).tree, cs) <==> AllFaithful(above, cs)
  {
    if AllFaithful(above, cs) {
      EveryPrefixShows(above, cs, |cs|);
      WholeMount(above, cs);
    } else {
      var k :| 0 <= k < |cs| && !Faithful(above, cs[k]);
      UnfaithfulMissing(above, cs, k);
      MissingIsNotShown(PlaceAll(EMPTY_TREE, PlacementsOf(above, cs)).tree, cs, k);
    }
  }

  lemma WholeMount(above: seq<string>, cs: seq<Candidate>)
    ensures MountUpTo(above, cs, |cs|) == PlaceAll(EMPTY_TREE, PlacementsOf(above, cs))
    ensures cs[..|cs|] == cs
  {
    assert cs[..|cs|] == cs;
    MountUpToIsPlaceAll(above, cs, |cs|);
  }

  lemma MissingIsNotShown(tree: Tree, cs: seq<Candidate>, k: nat)
    requires k < |cs| && cs[k].Target() !in tree
    ensures !Shows(tree, cs)
  {
    var p, file := cs[k].Target(), File(cs[k].content, AttrOf(cs[k].load));
    assert DirAt(cs, p) || FileAt(cs, p, file);
    assert !(ShowsAt(tree, cs, p, Directory) && ShowsAt(tree, cs, p, file));
  }

  lemma UnfaithfulMissing(above: seq<string>, cs: seq<Candidate>, k: nat)
    requires WellNamed(cs) && k < |cs| && !Faithful(above, cs[k])
    ensures cs[k].Target() !in PlaceAll(EMPTY_TREE, PlacementsOf(above, cs)).tree
  {
    var ps, p := PlacementsOf(above, cs), cs[k].Target();
    forall i | 0 <= i < |ps| ensures !(p <= ps[i].At()) {
      var at := Normal(above, cs[i].dir, cs[i].stem);
      assert at[..|at| - 1] + [at[|at| - 1]] == at;
      UnfaithfulUnreachable(above, cs[k], cs[i]);
    }
    if p in PlaceAll(EMPTY_TREE, ps).tree {
      InodesAreTouched(ps, p);
    }
  }

  /** What the callback extracts from a walk is the candidates, in an order that keeps folders first. */
  lemma WalkGivesCandidates(env: Env, above: seq<string>, root: Source)
    requires env.source == Absolute(above) && ValidNames(above)
    requires root.Folder? && Listed(root)
    ensures Rooted(env.source)
    ensures var cs := Candidates(env, above, [], root);
      Ordered(cs) && WellNamed(cs) && Placements(env, env.source, root) == PlacementsOf(above, cs)
  {
    assert above + [] == above;
    PlacementsAreCandidates(env, above, [], root);
    FoundSomewhere(env, above, [], root.entries);
    WalkOrdered(env, above, [], root.entries);
  }

  /**
   Preload as a whole: on a source directory it succeeds exactly when no mountable file has a broken
   sidecar and none is in the way of a later one, and then the tree is the declared one exactly when
   all names are kept. Files that keep their names never make it panic.
   */
  lemma PreloadMeetsSpecification(env: Env, above: seq<string>, root: Source)
    requires env.source == Absolute(above) && ValidNames(above)
    requires root.Folder? && Listed(root)
    ensures Rooted(env.source)
    ensures var cs, result := Candidates(env, above, [], root), PlaceAll(EMPTY_TREE, Placements(env, env.source, root));
      && (result.ok <==> AllLoad(cs) && Clear(above, cs))
      && (result.ok ==> (Shows(result.tree, cs) <==> AllFaithful(above, cs)))
      && (AllFaithful(above, cs) ==> Clear(above, cs) && result.end != Panicked)
  {
    var cs := Candidates(env, above, [], root);
    WalkGivesCandidates(env, above, root);
    FinishesExactly(above, cs);
    if AllLoad(cs) {
      MountsExactlyFaithful(above, cs);
    }
    if AllFaithful(above, cs) {
      FaithfulIsClear(above, cs);
      ClearNeverPanics(above, cs);
    }
  }

  lemma ClearNeverPanics(above: seq<string>, cs: seq<Candidate>)
    requires Clear(above, cs)
    ensures PlaceAll(EMPTY_TREE, PlacementsOf(above, cs)).end != Panicked
  {
    var ps := PlacementsOf(above, cs);
    EndExactly(ps);
    if !FinishesUpTo(ps, |ps|) {
      var k := FirstTrouble(ps, |ps|);
      FileAboveFront(ps[..k], ps[k].dirs);
    }
  }

  /**
   In the walk of a source directory whose files keep their names: when the k-th file's turn comes,
   each of its components and its own place are missing or a directory, so the lookup never returns a
   file and nothing that is there is displaced.
   */
  lemma NoFileOnTheWay(env: Env, above: seq<string>, root: Source, k: nat, p: seq<string>)
    requires env.source == Absolute(above) && ValidNames(above)
    requires root.Folder? && Listed(root)
    requires var cs := Candidates(env, above, [], root);
      AllFaithful(above, cs) && k < |cs| && LoadUpTo(cs, k) && p <= cs[k].Target()
    ensures Rooted(env.source) && k < |Placements(env, env.source, root)|
    ensures var before := PlaceAll(EMPTY_TREE, Placements(env, env.source, root)[..k]);
      before.ok && (p in before.tree ==> before.tree[p] == Directory)
  {
    var cs := Candidates(env, above, [], root);
    WalkGivesCandidates(env, above, root);
    EveryPrefixShows(above, cs, k);
    WalkUpTo(above, cs, k);
    NeverFile(MountUpTo(above, cs, k).tree, cs, k, p);
  }

  lemma WalkUpTo(above: seq<string>, cs: seq<Candidate>, k: nat)
    requires k <= |cs|
    ensures MountUpTo(above, cs, k) == PlaceAll(EMPTY_TREE, PlacementsOf(above, cs)[..k])
  {
    MountUpToIsPlaceAll(above, cs, k);
    assert PlacementsOf(above, cs)[..k] == PlacementsOf(above, cs[..k]);
  }

  lemma NeverFile(tree: Tree, cs: seq<Candidate>, k: nat, p: seq<string>)
    requires Ordered(cs) && k < |cs| && Shows(tree, cs[..k]) && p <= cs[k].Target()
    ensures p in tree ==> tree[p] == Directory
  {
    if p == cs[k].Target() {
      NotYetThere(tree, cs, k);
    } else {
      assert p == cs[k].Target()[..|p|] == cs[k].dir[..|p|];
      ComponentsAreDirectories(tree, cs, k, p);
    }
  }

  /**
   After a sidecar error the tree is the declared tree of the files walked before, plus at most
   empty directories on the path of the failing file.
   */
  lemma FailureLeavesEarlierFiles(above: seq<string>, cs: seq<Candidate>, k: nat)
    requires Ordered(cs) && WellNamed(cs) && AllFaithful(above, cs)
    requires k < |cs| && cs[k].load.Failed? && LoadUpTo(cs, k)
    ensures var earlier, result := MountUpTo(above, cs, k), PlaceAll(EMPTY_TREE, PlacementsOf(above, cs));
      && earlier.ok && Shows(earlier.tree, cs[..k]) && result.end == Stopped
      && (forall p :: p in earlier.tree ==> p in result.tree && result.tree[p] == earlier.tree[p])
      && (forall p :: p in result.tree && p !in earlier.tree ==> result.tree[p] == Directory && p <= cs[k].dir)
      && (forall p, q :: p in result.tree && p !in earlier.tree && q in result.tree && p <= q ==> q <= cs[k].dir)
  {
    var c := cs[k];
    EveryPrefixShows(above, cs, k);
    FailureStops(above, cs, k);
    FaithfulPlacement(above, c);
    var earlier, result := MountUpTo(above, cs, k), PlaceAll(EMPTY_TREE, PlacementsOf(above, cs));
    NotBlocked(earlier.tree, cs, k);
    assert result == Mounted(WithDirs(earlier.tree, c.dir), Stopped);
    forall p, q | p in result.tree && p !in earlier.tree && q in result.tree && p <= q ensures q <= c.dir {
      ShownAncestors(earlier.tree, cs[..k], p, q);
    }
  }

  lemma FailureStops(above: seq<string>, cs: seq<Candidate>, k: nat)
    requires k < |cs| && MountUpTo(above, cs, k).ok && cs[k].load.Failed?
    ensures PlaceAll(EMPTY_TREE, PlacementsOf(above, cs)) ==
      Place(MountUpTo(above, cs, k).tree, PlacementOf(above, cs[k]))
  {
    MountNext(above, cs, k);
    FailureIsFinal(above, cs, k + 1, |cs|);
    WholeMount(above, cs);
  }

  lemma {:induction false} FailureIsFinal(above: seq<string>, cs: seq<Candidate>, k: nat, n: nat)
    requires k <= n <= |cs| && !MountUpTo(above, cs, k).ok
    ensures MountUpTo(above, cs, n) == MountUpTo(above, cs, k)
    decreases n
  {
    if k == n {
    } else {
      FailureIsFinal(above, cs, k, n - 1);
    }
  }

  /** A shown tree has every ancestor of every inode. */
  lemma ShownAncestors(tree: Tree, cs: seq<Candidate>, p: seq<string>, q: seq<string>)
    requires Shows(tree, cs) && p <= q
    ensures q in tree ==> p in tree
  {
    if q in tree && p != q {
      assert ShowsAt(tree, cs, q, tree[q]) && ShowsAt(tree, cs, p, Directory);
      if tree[q].File? {
        var i :| 0 <= i < |cs| && cs[i].Target() == q;
        assert p == cs[i].Target()[..|p|] == cs[i].dir[..|p|];
        assert p <= cs[i].dir;
      }
    }
  }

  /** Every directory of a shown tree but the root leads to a mounted file. */
  lemma {:induction false} DirectoriesAreNeeded(tree: Tree, cs: seq<Candidate>, p: seq<string>)
    requires Ordered(cs) && Shows(tree, cs) && p in tree && tree[p] == Directory && p != []
    ensures exists q :: q in tree && tree[q].File? && p < q
  {
    assert ShowsAt(tree, cs, p, Directory);
    var i :| 0 <= i < |cs| && p <= cs[i].dir;
    FileBelow(tree, cs, i);
    var q :| q in tree && tree[q].File? && cs[i].Target() <= q;
    assert p < q;
  }

  lemma {:induction false} FileBelow(tree: Tree, cs: seq<Candidate>, i: nat)
    requires Ordered(cs) && Shows(tree, cs) && i < |cs|
    ensures exists q :: q in tree && tree[q].File? && cs[i].Target() <= q
  {
    var p := cs[i].Target();
    if DirAt(cs, p) {
      var j :| 0 <= j < |cs| && p <= cs[j].dir;
      assert p <= cs[j].Target();
      assert j < i;
      FileBelow(tree, cs, j);
      var q :| q in tree && tree[q].File? && cs[j].Target() <= q;
      assert p <= q;
    } else {
      assert ShowsAt(tree, cs, p, File(cs[i].content, AttrOf(cs[i].load)));
    }
  }

  /** No file shares its path with a folder that holds a mountable file. */
  ghost predicate NoneHidden(cs: seq<Candidate>) {
    forall i, j | 0 <= i < |cs| && 0 <= j < |cs| :: !(cs[i].Target() <= cs[j].dir)
  }

  /**
   The README promises a decrypted view of every encrypted file. The walk of a source directory keeps
   the promise exactly when every sidecar loads, every file keeps its name, and none shares its path
   with a folder that holds a mountable file.
   */
  lemma EveryFileVisible(env: Env, above: seq<string>, root: Source)
    requires env.source == Absolute(above) && ValidNames(above)
    requires root.Folder? && Listed(root)
    ensures Rooted(env.source)
    ensures var cs := Candidates(env, above, [], root);
      var tree := PlaceAll(EMPTY_TREE, Placements(env, env.source, root)).tree;
      AllVisible(tree, cs) <==> AllLoad(cs) && AllFaithful(above, cs) && NoneHidden(cs)
  {
    var cs := Candidates(env, above, [], root);
    var tree := PlaceAll(EMPTY_TREE, PlacementsOf(above, cs)).tree;
    WalkGivesCandidates(env, above, root);
    if !AllFaithful(above, cs) {
      var k :| 0 <= k < |cs| && !Faithful(above, cs[k]);
      UnfaithfulMissing(above, cs, k);
      assert !Visible(tree, cs[k]);
    } else if !AllLoad(cs) {
      var k := FirstUnloaded(cs, |cs|);
      FailedIsInvisible(above, cs, k);
      assert !Visible(tree, cs[k]);
    } else {
      MountsExactlyFaithful(above, cs);
      ShownFilesVisible(tree, cs);
    }
  }

  ghost predicate AllVisible(tree: Tree, cs: seq<Candidate>) {
    forall i | 0 <= i < |cs| :: Visible(tree, cs[i])
  }

  lemma {:induction false} FirstUnloaded(cs: seq<Candidate>, n: nat) returns (k: nat)
    requires n <= |cs| && !LoadUpTo(cs, n)
    ensures k < n && LoadUpTo(cs, k) && cs[k].load.Failed?
    decreases n
  {
    if LoadUpTo(cs, n - 1) {
      k := n - 1;
    } else {
      k := FirstUnloaded(cs, n - 1);
    }
  }

  lemma FailedIsInvisible(above: seq<string>, cs: seq<Candidate>, k: nat)
    requires Ordered(cs) && WellNamed(cs) && AllFaithful(above, cs)
    requires k < |cs| && cs[k].load.Failed? && LoadUpTo(cs, k)
    ensures !Visible(PlaceAll(EMPTY_TREE, PlacementsOf(above, cs)).tree, cs[k])
  {
    FailureLeavesEarlierFiles(above, cs, k);
    NotYetThere(MountUpTo(above, cs, k).tree, cs, k);
  }

  lemma ShownFilesVisible(tree: Tree, cs: seq<Candidate>)
    requires Ordered(cs) && Shows(tree, cs)
    ensures AllVisible(tree, cs) <==> NoneHidden(cs)
  {
    forall i | 0 <= i < |cs| ensures Visible(tree, cs[i]) <==> !DirAt(cs, cs[i].Target()) {
      var p, file := cs[i].Target(), File(cs[i].content, AttrOf(cs[i].load));
      assert ShowsAt(tree, cs, p, Directory) && ShowsAt(tree, cs, p, file);
    }
    if AllVisible(tree, cs) {
      forall i, j | 0 <= i < |cs| && 0 <= j < |cs| ensures !(cs[i].Target() <= cs[j].dir) {
        assert Visible(tree, cs[i]);
      }
    }
  }

  ghost predicate Visible(tree: Tree, c: Candidate) {
    c.Target() in tree && tree[c.Target()] == File(c.content, AttrOf(c.load))
  }

  /** The declared place of a file leads back to its source path. */
  lemma TargetIsSourcePath(above: seq<string>, dir: seq<string>, stem: string)
    ensures Absolute(above + dir + [stem]) + ENCRYPTED_SUFFIX == Absolute(above + dir + [stem + ENCRYPTED_SUFFIX])
  {
    AbsoluteLast(above + dir, stem);
    AbsoluteLast(above + dir, stem + ENCRYPTED_SUFFIX);
  }

  lemma AbsoluteInjective(p: seq<string>, q: seq<string>)
    requires p != [] && q != [] && SlashFree(p) && SlashFree(q)
    ensures Absolute(p) == Absolute(q) ==> p == q
  {
    SplitAbsolute(p);
    SplitAbsolute(q);
    if Absolute(p) == Absolute(q) {
      assert ([""] + p)[1..] == p && ([""] + q)[1..] == q;
    }
  }

  lemma NormalIsSlashFree(above: seq<string>, c: Candidate)
    requires ValidNames(c.dir) && '/' !in c.stem
    ensures SlashFree(PlacementOf(above, c).At()) && SlashFree(c.Target())
    ensures PlacementOf(above, c).At() == Normal(above, c.dir, c.stem)
  {
    var at := Normal(above, c.dir, c.stem);
    assert at[..|at| - 1] + [at[|at| - 1]] == at;
  }

  /**
   The place that the callback computes for a file leads back to the path of its source, by joining
   and putting the suffix back, exactly when the file keeps its name.
   */
  lemma TargetsInvertible(
      env: Env, above: seq<string>, dir: seq<string>, name: string, data: Option<Bytes>, c: Candidate)
    requires ValidNames(above) && ValidNames(dir) && ValidName(name)
    requires FileCandidate(env, above, dir, name, data) == [c]
    ensures Absolute(above + PlacementOf(above, c).At()) + ENCRYPTED_SUFFIX == Absolute(above + dir + [name])
       <==> Faithful(above, c)
  {
    assert [c][0] == c;
    assert c.dir == dir && name == c.stem + ENCRYPTED_SUFFIX;
    assert forall x | x in c.stem :: x in name;
    TargetIsSourcePath(above, dir, c.stem);
    assert above + c.Target() == above + dir + [c.stem];
    NormalIsSlashFree(above, c);
    FaithfulExactly(above, c);
    SamePlace(above, PlacementOf(above, c).At(), c.Target());
  }

  lemma SamePlace(above: seq<string>, p: seq<string>, q: seq<string>)
    requires ValidNames(above) && p != [] && q != [] && SlashFree(p) && SlashFree(q)
    ensures Absolute(above + p) + ENCRYPTED_SUFFIX == Absolute(above + q) + ENCRYPTED_SUFFIX <==> p == q
  {
    AbsoluteInjective(above + p, above + q);
    var a, b := Absolute(above + p), Absolute(above + q);
    if a + ENCRYPTED_SUFFIX == b + ENCRYPTED_SUFFIX {
      assert a == (a + ENCRYPTED_SUFFIX)[..|a|] && b == (b + ENCRYPTED_SUFFIX)[..|b|];
      assert p == (above + p)[|above|..] && q == (above + q)[|above|..];
    }
  }

  /**
   Which files share a place: one that keeps its name shares it with no other such file, and one that
   does not has taken the place of a file that would.
   */
  lemma PlacesUnique(above: seq<string>, c: Candidate)
    requires ValidNames(above) && ValidNames(c.dir) && '/' !in c.stem
    ensures Faithful(above, c) <==> forall d: Candidate | SharesPlace(above, c, d) :: d.dir == c.dir && d.stem == c.stem
  {
    FaithfulExactly(above, c);
    NormalIsSlashFree(above, c);
    if Faithful(above, c) {
      forall d: Candidate | SharesPlace(above, c, d) ensures d.dir == c.dir && d.stem == c.stem {
        FaithfulExactly(above, d);
        NormalIsSlashFree(above, d);
        TargetInjective(c, d);
      }
    } else {
      var at := PlacementOf(above, c).At();
      var d := Candidate(at[..|at| - 1], at[|at| - 1], c.content, c.load);
      OwnerOfPlace(above, c, d);
      assert SharesPlace(above, c, d);
    }
  }

  /** `d` is a file that keeps its name, in the place that `c` is given. */
  ghost predicate SharesPlace(above: seq<string>, c: Candidate, d: Candidate) {
    && ValidNames(d.dir) && '/' !in d.stem && Faithful(above, d)
    && PlacementOf(above, d).At() == PlacementOf(above, c).At()
  }

  lemma TargetInjective(c: Candidate, d: Candidate)
    requires c.Target() == d.Target()
    ensures c.dir == d.dir && c.stem == d.stem
  {
    assert c.Target()[|c.Target()| - 1] == c.stem && d.Target()[|d.Target()| - 1] == d.stem;
    assert c.dir == c.Target()[..|c.dir|] && d.dir == d.Target()[..|d.dir|];
  }

  lemma OwnerOfPlace(above: seq<string>, c: Candidate, d: Candidate)
    requires ValidNames(above) && ValidNames(c.dir) && '/' !in c.stem && !Faithful(above, c)
    requires var at := Normal(above, c.dir, c.stem); d.dir == at[..|at| - 1] && d.stem == at[|at| - 1]
    ensures SharesPlace(above, c, d) && !(d.dir == c.dir && d.stem == c.stem)
  {
    var at := Normal(above, c.dir, c.stem);
    assert d.Target() == at;
    FaithfulExactly(above, c);
    FaithfulExactly(above, d);
    NormalIsSlashFree(above, c);
    NormalIsSlashFree(above, d);
  }

  /** So in a source directory whose files keep their names no two compete for one place. */
  lemma NoCompetition(env: Env, above: seq<string>, root: Source, i: nat, j: nat)
    requires env.source == Absolute(above) && ValidNames(above)
    requires root.Folder? && Listed(root)
    requires var cs := Candidates(env, above, [], root); AllFaithful(above, cs) && i < j < |cs|
    ensures Rooted(env.source) && j < |Placements(env, env.source, root)|
    ensures var ps := Placements(env, env.source, root); ps[i].At() != ps[j].At()
  {
    var cs := Candidates(env, above, [], root);
    WalkGivesCandidates(env, above, root);
    FaithfulPlacement(above, cs[i]);
    FaithfulPlacement(above, cs[j]);
  }
}
