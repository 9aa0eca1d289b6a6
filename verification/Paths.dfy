/**
 Slash-separated paths as strings, with the operations of Go's `strings` and `path/filepath`
 that the mount code applies to them, and the laws that make a path string and a list of
 components interchangeable.
 */
module Paths {
  import opened Wrappers

  // A path component as a directory listing can report it.
  predicate ValidName(name: string) {
    name != "" && '/' !in name && name != "." && name != ".."
  }

  predicate ValidNames(names: seq<string>) {
    forall i | 0 <= i < |names| :: ValidName(names[i])
  }

  predicate SlashFree(parts: seq<string>) {
    forall i | 0 <= i < |parts| :: '/' !in parts[i]
  }

  // ---------------------------------------------------------------- strings

  /** strings.Split(s, "/") */
  function Split(s: string): (parts: seq<string>)
    ensures |parts| >= 1
    ensures SlashFree(parts)
  {
    if s == "" then [""]
    else
      var rest := Split(s[1..]);
      if s[0] == '/' then [""] + rest else [[s[0]] + rest[0]] + rest[1..]
  }

  /** strings.Join(parts, "/") */
  function Join(parts: seq<string>): string {
    if |parts| == 0 then ""
    else if |parts| == 1 then parts[0]
    else parts[0] + "/" + Join(parts[1..])
  }

  /** strings.HasSuffix */
  predicate HasSuffix(s: string, suffix: string) {
    |s| >= |suffix| && s[|s| - |suffix|..] == suffix
  }

  /** strings.TrimSuffix */
  function TrimSuffix(s: string, suffix: string): string {
    if HasSuffix(s, suffix) then s[..|s| - |suffix|] else s
  }

  /** The components a loop over `strings.Split(s, "/")` acts on when it skips empty ones. */
  function NonEmpty(parts: seq<string>): (kept: seq<string>)
    ensures forall n :: n in kept <==> n in parts && n != ""
  {
    if parts == [] then []
    else (if parts[0] == "" then [] else [parts[0]]) + NonEmpty(parts[1..])
  }

  /** Byte-wise string order, the order of a directory listing. */
  predicate Less(a: string, b: string) {
    b != "" && (a == "" || a[0] < b[0] || (a[0] == b[0] && Less(a[1..], b[1..])))
  }

  // --------------------------------------------------------------- filepath

  predicate Rooted(p: string) {
    p != "" && p[0] == '/'
  }

  /** One step of filepath.Clean: what the component `part` does to the components kept so far. */
  function Push(rooted: bool, kept: seq<string>, part: string): seq<string> {
    if part == "" || part == "." then kept
    else if part == ".." then
      if kept != [] && kept[|kept| - 1] != ".." then kept[..|kept| - 1]
      else if rooted then kept
      else kept + [".."]
    else kept + [part]
  }

  function Resolve(rooted: bool, parts: seq<string>, kept: seq<string>): seq<string> {
    if parts == [] then kept else Resolve(rooted, parts[1..], Push(rooted, kept, parts[0]))
  }

  /** The components of filepath.Clean(p). */
  function CleanParts(p: string): seq<string> {
    Resolve(Rooted(p), Split(p), [])
  }

  /** filepath.Clean */
  function Clean(p: string): string {
    var parts := CleanParts(p);
    if Rooted(p) then Absolute(parts) else Relative(parts)
  }

  function Absolute(parts: seq<string>): string {
    "/" + Join(parts)
  }

  function Relative(parts: seq<string>): string {
    if parts == [] then "." else Join(parts)
  }

  /** filepath.Join(dir, name) for a non-empty `dir`. */
  function JoinPath(dir: string, name: string): string {
    Clean(dir + "/" + name)
  }

  /** The length of the longest common prefix. */
  function CommonPrefix(a: seq<string>, b: seq<string>): (k: nat)
    ensures k <= |a| && k <= |b| && a[..k] == b[..k]
  {
    if a == [] || b == [] || a[0] != b[0] then 0
    else
      var k := CommonPrefix(a[1..], b[1..]);
      assert a[..k + 1] == [a[0]] + a[1..][..k] && b[..k + 1] == [b[0]] + b[1..][..k];
      k + 1
  }

  function Ups(n: nat): (ups: seq<string>)
    ensures |ups| == n && forall u | u in ups :: u == ".."
  {
    seq(n, _ => "..")
  }

  /** filepath.Rel for a rooted base; it fails on a target that is not rooted. */
  function Rel(base: string, target: string): Option<string>
    requires Rooted(base)
  {
    if !Rooted(target) then None
    else Some(RelativeTo(CleanParts(base), CleanParts(target)))
  }

  /** The way from one cleaned path to another: up to where they part, then down. */
  function RelativeTo(base: seq<string>, target: seq<string>): string {
    var k := CommonPrefix(base, target);
    Relative(Ups(|base| - k) + target[k..])
  }

  /** The index just past the last slash. */
  function AfterLastSlash(p: string): (i: nat)
    ensures i <= |p| && '/' !in p[i..] && (i == 0 || p[i - 1] == '/')
  {
    if p == "" then 0
    else
      var i := AfterLastSlash(p[1..]);
      if i > 0 then i + 1 else if p[0] == '/' then 1
      else assert p == [p[0]] + p[1..]; 0
  }

  /** filepath.Split: the part up to the last slash, and the rest. */
  function SplitFile(p: string): (r: (string, string)) {
    var i := AfterLastSlash(p);
    (p[..i], p[i..])
  }

  // ------------------------------------------------------------------- laws

  lemma {:induction false} SplitPart(part: string, rest: string)
    requires '/' !in part
    ensures Split(part) == [part]
    ensures Split(part + "/" + rest) == [part] + Split(rest)
  {
    if part == "" {
      assert ("/" + rest)[1..] == rest && part + "/" + rest == "/" + rest;
    } else {
      SplitPart(part[1..], rest);
      assert (part + "/" + rest)[1..] == part[1..] + "/" + rest;
      assert [part[0]] + part[1..] == part;
    }
  }

  /** Splitting undoes joining. */
  lemma {:induction false} SplitJoin(parts: seq<string>)
    requires parts != [] && SlashFree(parts)
    ensures Split(Join(parts)) == parts
  {
    SplitPart(parts[0], Join(parts[1..]));
    if |parts| > 1 {
      SplitJoin(parts[1..]);
      assert [parts[0]] + parts[1..] == parts;
    } else {
      assert parts == [parts[0]];
    }
  }

  /** Joining undoes splitting. */
  lemma {:induction false} JoinSplit(s: string)
    ensures Join(Split(s)) == s
  {
    if s == "" {
    } else {
      var rest := Split(s[1..]);
      JoinSplit(s[1..]);
      if s[0] == '/' {
        assert ([""] + rest)[1..] == rest;
        assert s == "/" + s[1..];
      } else {
        var parts := [[s[0]] + rest[0]] + rest[1..];
        assert parts[1..] == rest[1..];
        assert s == [s[0]] + s[1..];
      }
    }
  }

  lemma {:induction false} JoinLast(parts: seq<string>, last: string)
    requires parts != []
    ensures Join(parts + [last]) == Join(parts) + "/" + last
  {
    assert (parts + [last])[1..] == parts[1..] + [last];
    if |parts| > 1 {
      JoinLast(parts[1..], last);
    } else {
      assert parts[1..] + [last] == [last];
    }
  }

  lemma {:induction false} SplitAbsolute(parts: seq<string>)
    requires SlashFree(parts)
    ensures Split(Absolute(parts)) == [""] + if parts == [] then [""] else parts
  {
    SplitPart("", Join(parts));
    assert "" + "/" + Join(parts) == Absolute(parts);
    if parts != [] {
      SplitJoin(parts);
    } else {
      assert Split("") == [""];
    }
  }

  lemma {:induction false} ResolveAppend(rooted: bool, a: seq<string>, b: seq<string>, kept: seq<string>)
    ensures Resolve(rooted, a + b, kept) == Resolve(rooted, b, Resolve(rooted, a, kept))
  {
    if a == [] {
      assert a + b == b;
    } else {
      assert (a + b)[1..] == a[1..] + b;
      ResolveAppend(rooted, a[1..], b, Push(rooted, kept, a[0]));
    }
  }

  lemma {:induction false} ResolveValid(rooted: bool, names: seq<string>, kept: seq<string>)
    requires ValidNames(names)
    ensures Resolve(rooted, names, kept) == kept + names
  {
    if names == [] {
    } else {
      assert Push(rooted, kept, names[0]) == kept + [names[0]];
      ResolveValid(rooted, names[1..], kept + [names[0]]);
      assert kept + [names[0]] + names[1..] == kept + names;
    }
  }

  /** Cleaning a rooted path whose components are all real names but possibly the last. */
  lemma CleanAbsolute(names: seq<string>, last: string)
    requires ValidNames(names) && '/' !in last
    ensures CleanParts(Absolute(names + [last])) == Push(true, names, last)
    ensures Rooted(Absolute(names + [last]))
  {
    var p := Absolute(names + [last]);
    SplitAbsolute(names + [last]);
    ResolveAppend(true, [""], names + [last], []);
    assert Resolve(true, [""], []) == [];
    ResolveAppend(true, names, [last], []);
    ResolveValid(true, names, []);
    assert [last][1..] == [];
    assert [""] + (names + [last]) == Split(p);
  }

  lemma CleanAbsoluteNames(names: seq<string>)
    requires ValidNames(names)
    ensures CleanParts(Absolute(names)) == names
    ensures Rooted(Absolute(names))
  {
    if names == [] {
      SplitAbsolute([]);
      assert [""] + [""] == ["", ""];
      assert ["", ""][1..] == [""] && [""][1..] == [];
      assert Resolve(true, ["", ""], []) == Resolve(true, [""], []) == Resolve(true, [], []);
    } else {
      assert names == names[..|names| - 1] + [names[|names| - 1]];
      CleanAbsolute(names[..|names| - 1], names[|names| - 1]);
    }
  }

  /** Every rooted path cleans to a rooted list of real names, and cleaning twice changes nothing. */
  lemma CleanRooted(p: string)
    requires Rooted(p)
    ensures ValidNames(CleanParts(p)) && Clean(p) == Absolute(CleanParts(p)) && Clean(Clean(p)) == Clean(p)
  {
    ResolveKeepsNames(Split(p), []);
    CleanAbsoluteNames(CleanParts(p));
  }

  lemma {:induction false} ResolveKeepsNames(parts: seq<string>, kept: seq<string>)
    requires SlashFree(parts) && ValidNames(kept)
    ensures ValidNames(Resolve(true, parts, kept))
  {
    if parts == [] {
    } else {
      assert ValidNames(Push(true, kept, parts[0]));
      ResolveKeepsNames(parts[1..], Push(true, kept, parts[0]));
    }
  }

  lemma JoinPathAbsolute(names: seq<string>, name: string)
    requires ValidNames(names) && ValidName(name)
    ensures JoinPath(Absolute(names), name) == Absolute(names + [name])
  {
    var p := Absolute(names) + "/" + name;
    if names == [] {
      assert p == "/" + ("/" + name) && "/" + name == "" + "/" + name;
      SplitPart("", "/" + name);
      SplitPart("", name);
      SplitPart(name, "");
      assert Split(p) == ["", "", name];
      assert Resolve(true, ["", "", name], []) == Resolve(true, ["", name], []) == Resolve(true, [name], []) == [name];
    } else {
      JoinLast(names, name);
      assert p == Absolute(names + [name]);
      CleanAbsolute(names, name);
    }
  }

  lemma CommonPrefixIs(a: seq<string>, b: seq<string>, k: nat)
    requires k <= |a| && k <= |b| && a[..k] == b[..k]
    requires k == |a| || k == |b| || a[k] != b[k]
    ensures CommonPrefix(a, b) == k
  {
    CommonPrefixMaximal(a, b);
    assert forall i | 0 <= i < k :: a[i] == a[..k][i] && b[i] == b[..k][i];
    var j := CommonPrefix(a, b);
    assert forall i | 0 <= i < j :: a[i] == a[..j][i] && b[i] == b[..j][i];
  }

  lemma {:induction false} CommonPrefixMaximal(a: seq<string>, b: seq<string>)
    ensures var k := CommonPrefix(a, b); k == |a| || k == |b| || a[k] != b[k]
  {
    if a == [] || b == [] || a[0] != b[0] {
    } else {
      CommonPrefixMaximal(a[1..], b[1..]);
    }
  }

  lemma {:induction false} AfterLastSlashIs(p: string, i: nat)
    requires i <= |p| && '/' !in p[i..] && (i == 0 || p[i - 1] == '/')
    ensures AfterLastSlash(p) == i
  {
    assert forall k | i <= k < |p| :: p[k] == p[i..][k - i];
    var j := AfterLastSlash(p);
    assert forall k | j <= k < |p| :: p[k] == p[j..][k - j];
  }

  lemma {:induction false} NonEmptyOf(parts: seq<string>)
    requires forall i | 0 <= i < |parts| :: parts[i] != ""
    ensures NonEmpty(parts) == parts && NonEmpty(parts + [""]) == parts
  {
    if parts != [] {
      NonEmptyOf(parts[1..]);
      assert (parts + [""])[1..] == parts[1..] + [""];
    } else {
      assert NonEmpty([""]) == [] + NonEmpty([]);
      assert parts + [""] == [""];
    }
  }

  /**
   Taking a cleaned relative path apart again: the last component is what filepath.Split calls the
   file, and the non-empty components of its directory part are all the others.
   */
  lemma SplitFileJoin(front: seq<string>, last: string)
    requires SlashFree(front) && '/' !in last
    requires forall i | 0 <= i < |front| :: front[i] != ""
    ensures SplitFile(Join(front + [last])).1 == last
    ensures NonEmpty(Split(SplitFile(Join(front + [last])).0)) == front
  {
    if front == [] {
      assert front + [last] == [last];
      assert Join([last]) == last;
      AfterLastSlashIs(last, 0);
      assert last[..0] == "" && last[0..] == last;
      NonEmptyOf([]);
      assert [] + [""] == [""];
    } else {
      DirectoryParts(front);
      JoinLast(front, last);
      SplitAfter(Join(front) + "/", last);
    }
  }

  lemma DirectoryParts(front: seq<string>)
    requires front != [] && SlashFree(front) && forall i | 0 <= i < |front| :: front[i] != ""
    ensures NonEmpty(Split(Join(front) + "/")) == front
  {
    JoinLast(front, "");
    assert Join(front) + "/" == Join(front) + "/" + "";
    SplitJoin(front + [""]);
    NonEmptyOf(front);
  }

  lemma SplitAfter(dir: string, file: string)
    requires dir != "" && dir[|dir| - 1] == '/' && '/' !in file
    ensures SplitFile(dir + file) == (dir, file)
  {
    var p := dir + file;
    assert p[|dir|..] == file && p[..|dir|] == dir;
    AfterLastSlashIs(p, |dir|);
  }

  lemma {:induction false} ResolveRelative(parts: seq<string>, kept: seq<string>)
    requires forall i | 0 <= i < |parts| :: parts[i] != "" && parts[i] != "."
    requires forall i | 0 <= i < |kept + parts| && (kept + parts)[i] == ".." ::
      forall j | 0 <= j < i :: (kept + parts)[j] == ".."
    ensures Resolve(false, parts, kept) == kept + parts
  {
    if parts == [] {
    } else {
      if parts[0] == ".." && kept != [] {
        assert (kept + parts)[|kept|] == "..";
        assert (kept + parts)[|kept| - 1] == "..";
      }
      assert Push(false, kept, parts[0]) == kept + [parts[0]];
      assert kept + [parts[0]] + parts[1..] == kept + parts;
      ResolveRelative(parts[1..], kept + [parts[0]]);
    }
  }

  /** A string never precedes its own beginning, so `a` is listed before `a.gpg`. */
  lemma {:induction false} ExtensionNotLess(a: string, suffix: string)
    ensures !Less(a + suffix, a)
  {
    if a == "" {
    } else {
      assert (a + suffix)[1..] == a[1..] + suffix;
      ExtensionNotLess(a[1..], suffix);
    }
  }

  lemma SuffixOfPath(names: seq<string>, name: string, suffix: string)
    requires '/' !in suffix && suffix != ""
    ensures HasSuffix(Absolute(names + [name]), suffix) <==> HasSuffix(name, suffix)
    ensures HasSuffix(name, suffix) ==>
      TrimSuffix(Absolute(names + [name]), suffix) == Absolute(names + [TrimSuffix(name, suffix)])
  {
    var front := if names == [] then "/" else "/" + Join(names) + "/";
    var stem := TrimSuffix(name, suffix);
    AbsoluteLast(names, name);
    AbsoluteLast(names, stem);
    SuffixAfterSlash(front, name, suffix);
  }

  lemma AbsoluteLast(names: seq<string>, last: string)
    ensures Absolute(names + [last]) == (if names == [] then "/" else "/" + Join(names) + "/") + last
  {
    if names != [] {
      JoinLast(names, last);
    } else {
      assert names + [last] == [last];
    }
  }

  lemma SuffixAfterSlash(front: string, name: string, suffix: string)
    requires front != "" && front[|front| - 1] == '/' && '/' !in suffix && suffix != ""
    ensures HasSuffix(front + name, suffix) <==> HasSuffix(name, suffix)
    ensures HasSuffix(name, suffix) ==> TrimSuffix(front + name, suffix) == front + TrimSuffix(name, suffix)
  {
    var p := front + name;
    if |name| >= |suffix| {
      assert p[|p| - |suffix|..] == name[|name| - |suffix|..];
      assert p[..|p| - |suffix|] == front + name[..|name| - |suffix|];
    } else if |p| >= |suffix| {
      assert p[|p| - |suffix|..][|suffix| - |name| - 1] == front[|front| - 1] == '/';
    }
  }

  lemma SplitFirst(c: char, rest: string)
    ensures var parts := Split(rest);
      Split([c] + rest) == if c == '/' then [""] + parts else [[c] + parts[0]] + parts[1..]
  {
    assert ([c] + rest)[1..] == rest;
  }

  lemma {:induction false} SplitConcat(a: string, b: string)
    ensures Split(a + "/" + b) == Split(a) + Split(b)
  {
    if a == "" {
      SplitPart("", b);
      assert "" + "/" + b == a + "/" + b;
    } else {
      var c, rest := a[0], a[1..];
      SplitConcat(rest, b);
      SplitFirst(c, rest);
      SplitFirst(c, rest + "/" + b);
      assert a == [c] + rest && a + "/" + b == [c] + (rest + "/" + b);
      SplitsConcat(c, Split(rest), Split(b));
    }
  }

  lemma SplitsConcat(c: char, p: seq<string>, q: seq<string>)
    requires p != []
    ensures [""] + (p + q) == [""] + p + q
    ensures [[c] + (p + q)[0]] + (p + q)[1..] == [[c] + p[0]] + p[1..] + q
  {
    assert (p + q)[1..] == p[1..] + q;
  }

  lemma {:induction false} ResolveUps(kept: seq<string>, n: nat)
    requires ValidNames(kept) && n <= |kept|
    ensures Resolve(true, Ups(n), kept) == kept[..|kept| - n]
    decreases n
  {
    if n == 0 {
      assert kept[..|kept|] == kept;
    } else {
      assert Ups(n)[1..] == Ups(n - 1) && Ups(n)[0] == "..";
      ResolveUps(kept[..|kept| - 1], n - 1);
    }
  }

  lemma {:induction false} ResolveSplitRelative(parts: seq<string>, kept: seq<string>)
    requires SlashFree(parts)
    ensures Resolve(true, Split(Relative(parts)), kept) == Resolve(true, parts, kept)
  {
    if parts == [] {
      SplitPart(".", "");
      assert Split(".") == ["."] && ["."][1..] == [];
      assert Resolve(true, ["."], kept) == Resolve(true, [], kept);
    } else {
      SplitJoin(parts);
    }
  }

  /** What filepath.Rel promises: joined to the base, its result leads to the target. */
  lemma RelJoins(base: string, target: string)
    requires Rooted(base) && Rooted(target)
    ensures JoinPath(base, Rel(base, target).value) == Clean(target)
  {
    var b, t := CleanParts(base), CleanParts(target);
    var rel := RelativeTo(b, t);
    CleanRooted(base);
    CleanRooted(target);
    SplitConcat(base, rel);
    ResolveAppend(true, Split(base), Split(rel), []);
    FollowRelative(b, t);
    assert (base + "/" + rel)[0] == base[0];
  }

  lemma FollowRelative(b: seq<string>, t: seq<string>)
    requires ValidNames(b) && ValidNames(t)
    ensures Resolve(true, Split(RelativeTo(b, t)), b) == t
  {
    var k := CommonPrefix(b, t);
    UpsAreSlashFree(|b| - k, t[k..]);
    ResolveSplitRelative(Ups(|b| - k) + t[k..], b);
    UpAndDown(b, t, k);
  }

  lemma UpsAreSlashFree(n: nat, tail: seq<string>)
    requires ValidNames(tail)
    ensures SlashFree(Ups(n) + tail)
  {
  }

  lemma UpAndDown(b: seq<string>, t: seq<string>, k: nat)
    requires ValidNames(b) && ValidNames(t) && k <= |b| && k <= |t| && b[..k] == t[..k]
    ensures Resolve(true, Ups(|b| - k) + t[k..], b) == t
  {
    Upwards(b, k, t[k..]);
    Downwards(t, k);
  }

  lemma Upwards(b: seq<string>, k: nat, tail: seq<string>)
    requires ValidNames(b) && k <= |b|
    ensures Resolve(true, Ups(|b| - k) + tail, b) == Resolve(true, tail, b[..k])
  {
    var n := |b| - k;
    ResolveUps(b, n);
    assert b[..|b| - n] == b[..k];
    ResolveAppend(true, Ups(n), tail, b);
  }

  lemma Downwards(t: seq<string>, k: nat)
    requires ValidNames(t) && k <= |t|
    ensures Resolve(true, t[k..], t[..k]) == t
  {
    ResolveValid(true, t[k..], t[..k]);
    assert t[..k] + t[k..] == t;
  }

  /** What cleaning does to the last component of a path: empty and "." vanish, ".." takes one with it. */
  lemma CleanLast(names: seq<string>, name: string)
    requires ValidNames(names) && ValidName(name)
    ensures CleanParts(Absolute(names + [""])) == names && CleanParts(Absolute(names + ["."])) == names
    ensures CleanParts(Absolute(names + [".."])) == if names == [] then [] else names[..|names| - 1]
    ensures CleanParts(Absolute(names + [name])) == names + [name]
  {
    CleanAbsolute(names, "");
    CleanAbsolute(names, ".");
    CleanAbsolute(names, "..");
    CleanAbsolute(names, name);
  }

  lemma {:induction false} LessIrreflexive(a: string)
    ensures !Less(a, a)
  {
    if a == "" {
    } else {
      LessIrreflexive(a[1..]);
    }
  }
}
