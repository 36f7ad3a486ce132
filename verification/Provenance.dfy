/** Build provenance, written once in Rust for the build script and once in Python for the installer: both walk the
    source tree in whatever order the system lists it, sort the paths they find, and hash names and file digests. */
module Provenance {
  import opened Sequences
  import Utf8

  type Bytes = seq<int>

  /** A directory entry by what the two programs ask of it; a symlink by whether it leads to a regular file. */
  datatype Node = File | Dir(entries: seq<Entry>) | Symlink(toFile: bool) | Other

  datatype Entry = Entry(name: string, node: Node)

  /** The parts of the source tree that are listed. */
  datatype Root = Root(resources: Node, runtime: Node, crates: seq<Entry>)

  predicate Ignored(name: string) {
    || name in {"__pycache__", ".venv", ".pytest_cache", ".mypy_cache", ".ruff_cache"}
    || EndsWith(name, ".pyc") || EndsWith(name, ".egg-info")
  }

  const PAYLOAD: seq<string> :=
    ["scripts/optimus-agent", "scripts/launch-with-jev-env.py", "scripts/rust_release.py", "install.sh", "LICENSE", "README.md"]

  // ---------------------------------------------------------------- walking

  /** The relative paths of the regular files below a directory, in listing order; None where the walk fails. */
  function Paths(node: Node, at: string): Option<seq<string>>
    decreases node
  {
    match node
    case Dir(entries) => AllPaths(entries, |entries|, at)
    case _ => None
  }

  function AllPaths(entries: seq<Entry>, n: nat, at: string): Option<seq<string>>
    requires n <= |entries|
    decreases entries, n
  {
    if n == 0 then Some([]) else Both(AllPaths(entries, n - 1, at), EntryPaths(entries[n - 1], at))
  }

  function EntryPaths(e: Entry, at: string): Option<seq<string>>
    decreases e
  {
    if Ignored(e.name) then Some([])
    else
      match e.node
      case Symlink(_) => None
      case Dir(_) => Paths(e.node, at + "/" + e.name)
      case File => Some([at + "/" + e.name])
      case Other => Some([])
  }

  function Both(a: Option<seq<string>>, b: Option<seq<string>>): Option<seq<string>> {
    if a.None? || b.None? then None else Some(a.value + b.value)
  }

  /** Rust's String::replace('\\', "/"). */
  function Slashed(s: string): string {
    seq(|s|, i requires 0 <= i < |s| => if s[i] == '\\' then '/' else s[i])
  }

  /** walk() of the build script: appends to the list it is given. */
  method RustWalk(node: Node, at: string, before: seq<string>) returns (ok: bool, files: seq<string>)
    ensures ok <==> Paths(node, at).Some?
    ensures ok ==> files == before + MapSeq(Paths(node, at).value, Slashed)
    decreases node
  {
    files := before;
    hide *;
    PathsStart(node, at);
    if !node.Dir? { return false, files; }
    assert files + [] == files;
    for i := 0 to |node.entries|
      invariant AllPaths(node.entries, i, at).Some?
      invariant files == before + MapSeq(AllPaths(node.entries, i, at).value, Slashed)
    {
      var e := node.entries[i];
      AllPathsStep(node.entries, i, at);
      EntryKinds(e, at);
      if Ignored(e.name) { continue; }
      if e.node.Symlink? { ok := false; StaysNone(node.entries, i + 1, |node.entries|, at); return; }
      if e.node.Dir? {
        ok, files := RustWalk(e.node, at + "/" + e.name, files);
        if !ok { StaysNone(node.entries, i + 1, |node.entries|, at); return; }
      } else if e.node.File? {
        files := files + [Slashed(at + "/" + e.name)];
      }
    }
    ok := true;
  }

  /** input_tree() of the installer: builds a list of its own. */
  method PythonTree(node: Node, at: string) returns (ok: bool, files: seq<string>)
    ensures ok <==> Paths(node, at).Some?
    ensures ok ==> files == Paths(node, at).value
    decreases node
  {
    files := [];
    hide *;
    PathsStart(node, at);
    if !node.Dir? { return false, files; }
    assert files + [] == files;
    for i := 0 to |node.entries|
      invariant AllPaths(node.entries, i, at) == Some(files)
    {
      var e := node.entries[i];
      AllPathsStep(node.entries, i, at);
      EntryKinds(e, at);
      if Ignored(e.name) { continue; }
      if e.node.Symlink? { ok := false; StaysNone(node.entries, i + 1, |node.entries|, at); return; }
      if e.node.Dir? {
        var more;
        ok, more := PythonTree(e.node, at + "/" + e.name);
        if !ok { StaysNone(node.entries, i + 1, |node.entries|, at); return; }
        files := files + more;
      } else if e.node.File? {
        files := files + [at + "/" + e.name];
      }
    }
    ok := true;
  }

  lemma PathsStart(node: Node, at: string)
    ensures Paths(node, at) == if node.Dir? then AllPaths(node.entries, |node.entries|, at) else None
    ensures node.Dir? ==> AllPaths(node.entries, 0, at) == Some([])
    ensures MapSeq([], Slashed) == []
  {
  }

  lemma AllPathsStep(entries: seq<Entry>, i: nat, at: string)
    requires i < |entries|
    ensures
      var front, part, all := AllPaths(entries, i, at), EntryPaths(entries[i], at), AllPaths(entries, i + 1, at);
      && (all.Some? <==> front.Some? && part.Some?)
      && (all.Some? ==>
            && all.value == front.value + part.value
            && MapSeq(all.value, Slashed) == MapSeq(front.value, Slashed) + MapSeq(part.value, Slashed))
  {
  }

  lemma EntryKinds(e: Entry, at: string)
    ensures
      Ignored(e.name) || e.node.Other? ==>
        EntryPaths(e, at) == Some([]) && MapSeq([], Slashed) == [] && forall s: seq<string> :: s + [] == s
    ensures !Ignored(e.name) && e.node.Symlink? ==> EntryPaths(e, at) == None
    ensures !Ignored(e.name) && e.node.Dir? ==> EntryPaths(e, at) == Paths(e.node, at + "/" + e.name)
    ensures
      !Ignored(e.name) && e.node.File? ==>
        var p := at + "/" + e.name; EntryPaths(e, at) == Some([p]) && MapSeq([p], Slashed) == [Slashed(p)]
  {
  }

  lemma {:induction false} StaysNone(entries: seq<Entry>, i: nat, n: nat, at: string)
    requires i <= n <= |entries| && AllPaths(entries, i, at).None?
    ensures AllPaths(entries, n, at).None?
  {
    if i < n {
      StaysNone(entries, i, n - 1, at);
    }
  }

  // ---------------------------------------------------------------- collecting

  /** is_file(), which follows symlinks. */
  predicate IsFile(found: Option<Node>) {
    found.Some? && (found.value.File? || (found.value.Symlink? && found.value.toFile))
  }

  /** The first entry of that name. */
  function Lookup(entries: seq<Entry>, name: string): (r: Option<Node>)
    ensures r.None? <==> forall e :: e in entries ==> e.name != name
    ensures r.Some? ==> Entry(name, r.value) in entries
  {
    if |entries| == 0 then None
    else if entries[0].name == name then Some(entries[0].node)
    else Lookup(entries[1..], name)
  }

  function CrateFile(e: Entry, name: string): seq<string>
    requires e.node.Dir?
  {
    if IsFile(Lookup(e.node.entries, name)) then ["crates/" + e.name + "/" + name] else []
  }

  /** The sources of a crate, if they can be walked. */
  function SourcePaths(e: Entry): Option<seq<string>>
    requires e.node.Dir?
  {
    var src := Lookup(e.node.entries, "src");
    if src.None? then None else Paths(src.value, "crates/" + e.name + "/src")
  }

  function CratePaths(e: Entry): Option<seq<string>> {
    match e.node
    case Symlink(_) => None
    case Dir(entries) =>
      if !IsFile(Lookup(entries, "Cargo.toml")) then Some([])
      else Both(Some(CrateFile(e, "Cargo.toml") + CrateFile(e, "build.rs") + CrateFile(e, "build_provenance.rs")), SourcePaths(e))
    case _ => Some([])
  }

  function AllCrates(crates: seq<Entry>, n: nat): Option<seq<string>>
    requires n <= |crates|
  {
    if n == 0 then Some([]) else Both(AllCrates(crates, n - 1), CratePaths(crates[n - 1]))
  }

  /** Every listed path, in listing order, before either program rewrites or sorts it. */
  function Collected(root: Root): Option<seq<string>> {
    Both(Both(Both(Some(PAYLOAD + ["Cargo.toml", "Cargo.lock"]), Paths(root.resources, "resources")),
      Paths(root.runtime, "prime-agent-runtime")), AllCrates(root.crates, |root.crates|))
  }

  // ---------------------------------------------------------------- what is listed

  /** Names left out of every walk: the caches by name, compiled Python and package metadata by ending. */
  predicate LeftOut(name: string) {
    || name == "__pycache__" || name == ".venv" || name == ".pytest_cache" || name == ".mypy_cache" || name == ".ruff_cache"
    || (exists k :: 0 <= k <= |name| && (name[k..] == ".pyc" || name[k..] == ".egg-info"))
  }

  lemma IgnoredIs(name: string)
    ensures Ignored(name) <==> LeftOut(name)
  {
    if EndsWith(name, ".pyc") { assert name[|name| - 4..] == ".pyc"; }
    if EndsWith(name, ".egg-info") { assert name[|name| - 9..] == ".egg-info"; }
  }

  /** A chain of directory entries, none of them left out, leads from one node to another. */
  ghost predicate Leads(node: Node, chain: seq<Entry>, end: Node) {
    if |chain| == 0 then node == end
    else node.Dir? && chain[0] in node.entries && !LeftOut(chain[0].name) && Leads(chain[0].node, chain[1..], end)
  }

  /** The path that a chain spells. */
  function Spelled(at: string, chain: seq<Entry>): string
    decreases |chain|
  {
    if |chain| == 0 then at else Spelled(at + "/" + chain[0].name, chain[1..])
  }

  lemma {:induction false} PathsSome(entries: seq<Entry>, n: nat, at: string)
    requires n <= |entries|
    ensures AllPaths(entries, n, at).Some? <==> forall i :: 0 <= i < n ==> EntryPaths(entries[i], at).Some?
    ensures
      AllPaths(entries, n, at).Some? ==>
        forall p :: p in AllPaths(entries, n, at).value <==> exists i :: 0 <= i < n && p in EntryPaths(entries[i], at).value
  {
    hide EntryPaths;
    if n > 0 {
      PathsSome(entries, n - 1, at);
    }
  }

  lemma {:induction false} PathHasChain(node: Node, at: string, p: string) returns (chain: seq<Entry>)
    requires Paths(node, at).Some? && p in Paths(node, at).value
    ensures |chain| > 0 && Leads(node, chain, File) && Spelled(at, chain) == p
    decreases node
  {
    PathsSome(node.entries, |node.entries|, at);
    var i :| 0 <= i < |node.entries| && p in EntryPaths(node.entries[i], at).value;
    var e := node.entries[i];
    IgnoredIs(e.name);
    var rest := [];
    if e.node.Dir? { rest := PathHasChain(e.node, at + "/" + e.name, p); }
    chain := [e] + rest;
    assert chain[1..] == rest;
  }

  lemma {:induction false} ChainIsPath(node: Node, at: string, chain: seq<Entry>)
    requires Paths(node, at).Some? && |chain| > 0 && Leads(node, chain, File)
    ensures Spelled(at, chain) in Paths(node, at).value
    decreases |chain|
  {
    var e := chain[0];
    var i :| 0 <= i < |node.entries| && node.entries[i] == e;
    IgnoredIs(e.name);
    PathsSome(node.entries, |node.entries|, at);
    if |chain| > 1 { ChainIsPath(e.node, at + "/" + e.name, chain[1..]); }
    assert Spelled(at, chain) in EntryPaths(e, at).value;
  }

  lemma {:induction false} FailureHasChain(node: Node, at: string) returns (chain: seq<Entry>, toFile: bool)
    requires node.Dir? && Paths(node, at).None?
    ensures |chain| > 0 && Leads(node, chain, Symlink(toFile))
    decreases node
  {
    PathsSome(node.entries, |node.entries|, at);
    var i :| 0 <= i < |node.entries| && EntryPaths(node.entries[i], at).None?;
    var e := node.entries[i];
    IgnoredIs(e.name);
    var rest := [];
    if e.node.Dir? { rest, toFile := FailureHasChain(e.node, at + "/" + e.name); } else { toFile := e.node.toFile; }
    chain := [e] + rest;
    assert chain[1..] == rest;
  }

  lemma {:induction false} ChainFails(node: Node, at: string, chain: seq<Entry>, toFile: bool)
    requires |chain| > 0 && Leads(node, chain, Symlink(toFile))
    ensures Paths(node, at).None?
    decreases |chain|
  {
    var e := chain[0];
    var i :| 0 <= i < |node.entries| && node.entries[i] == e;
    IgnoredIs(e.name);
    PathsSome(node.entries, |node.entries|, at);
    if |chain| > 1 { ChainFails(e.node, at + "/" + e.name, chain[1..], toFile); }
  }

  /** A directory can be walked: no chain in it leads to a symlink. */
  ghost predicate Walkable(node: Node) {
    node.Dir? && forall chain, toFile :: |chain| > 0 ==> !Leads(node, chain, Symlink(toFile))
  }

  /** The path is spelled by a chain from the node to a regular file. */
  ghost predicate Below(node: Node, at: string, p: string) {
    exists chain :: |chain| > 0 && Leads(node, chain, File) && Spelled(at, chain) == p
  }

  /** What one walk finds, and when it fails. */
  lemma PathsAre(node: Node, at: string)
    ensures Paths(node, at).Some? <==> Walkable(node)
    ensures Paths(node, at).Some? ==> forall p :: p in Paths(node, at).value <==> Below(node, at, p)
  {
    hide Leads, Spelled;
    if Paths(node, at).Some? {
      forall chain, toFile | |chain| > 0 ensures !Leads(node, chain, Symlink(toFile)) {
        if Leads(node, chain, Symlink(toFile)) { ChainFails(node, at, chain, toFile); }
      }
      forall p ensures p in Paths(node, at).value <==> Below(node, at, p) {
        if p in Paths(node, at).value { var chain := PathHasChain(node, at, p); }
        if chain :| |chain| > 0 && Leads(node, chain, File) && Spelled(at, chain) == p { ChainIsPath(node, at, chain); }
      }
    } else if node.Dir? {
      var chain, toFile := FailureHasChain(node, at);
    }
  }

  /** A regular file of that name, or a symlink to one, is in the directory. */
  ghost predicate HasFile(entries: seq<Entry>, name: string) {
    Lookup(entries, name) == Some(File) || Lookup(entries, name) == Some(Symlink(true))
  }

  /** An entry of the crates directory that is a crate. */
  ghost predicate IsCrate(e: Entry) {
    e.node.Dir? && HasFile(e.node.entries, "Cargo.toml")
  }

  /** The entry stops the program: it is a symlink, or a crate whose sources cannot be walked. */
  ghost predicate Stops(e: Entry) {
    e.node.Symlink? || (IsCrate(e) && !(exists src :: Lookup(e.node.entries, "src") == Some(src) && Walkable(src)))
  }

  /** The path is a source of the crate, or one of its three files that may stand beside them. */
  ghost predicate OfCrate(e: Entry, p: string) {
    IsCrate(e) &&
    (|| (exists src :: Lookup(e.node.entries, "src") == Some(src) && Below(src, "crates/" + e.name + "/src", p))
     || p == "crates/" + e.name + "/Cargo.toml"
     || (p == "crates/" + e.name + "/build.rs" && HasFile(e.node.entries, "build.rs"))
     || (p == "crates/" + e.name + "/build_provenance.rs" && HasFile(e.node.entries, "build_provenance.rs")))
  }

  lemma SourcesAre(e: Entry)
    requires e.node.Dir?
    ensures SourcePaths(e).Some? <==> exists src :: Lookup(e.node.entries, "src") == Some(src) && Walkable(src)
    ensures
      SourcePaths(e).Some? ==>
        forall p :: p in SourcePaths(e).value <==>
          exists src :: Lookup(e.node.entries, "src") == Some(src) && Below(src, "crates/" + e.name + "/src", p)
  {
    hide Walkable, Below, Paths, Lookup;
    var src := Lookup(e.node.entries, "src");
    if src.Some? { PathsAre(src.value, "crates/" + e.name + "/src"); }
  }

  lemma CrateFileIs(e: Entry, name: string, p: string)
    requires e.node.Dir?
    ensures p in CrateFile(e, name) <==> p == "crates/" + e.name + "/" + name && HasFile(e.node.entries, name)
  {
    hide Lookup;
  }

  lemma CrateIs(e: Entry)
    ensures CratePaths(e).None? <==> Stops(e)
    ensures CratePaths(e).Some? ==> forall p :: p in CratePaths(e).value <==> OfCrate(e, p)
  {
    hide Walkable, Below, Paths, Lookup, CrateFile;
    if IsCrate(e) {
      SourcesAre(e);
      if SourcePaths(e).Some? {
        forall p ensures p in CratePaths(e).value <==> OfCrate(e, p) {
          CrateFileIs(e, "Cargo.toml", p);
          CrateFileIs(e, "build.rs", p);
          CrateFileIs(e, "build_provenance.rs", p);
          hide SourcePaths;
        }
      }
    }
  }

  lemma {:induction false} CratesAre(crates: seq<Entry>, n: nat)
    requires n <= |crates|
    ensures AllCrates(crates, n).None? <==> exists i :: 0 <= i < n && Stops(crates[i])
    ensures
      AllCrates(crates, n).Some? ==>
        forall p :: p in AllCrates(crates, n).value <==> exists i :: 0 <= i < n && OfCrate(crates[i], p)
  {
    hide CratePaths, Stops, OfCrate;
    if n > 0 {
      CratesAre(crates, n - 1);
      CrateIs(crates[n - 1]);
    }
  }

  const FIXED: seq<string> := [
    "scripts/optimus-agent", "scripts/launch-with-jev-env.py", "scripts/rust_release.py", "install.sh", "LICENSE", "README.md",
    "Cargo.toml", "Cargo.lock"]

  /** Exactly what is listed: the fixed names, every regular file below the two payload directories, and every crate's
      manifest, build script and sources. The programs fail exactly when one of the directories to be walked is none, or
      a symlink stands in the way of a walk or among the crates. */
  lemma CollectedIs(root: Root)
    ensures Collected(root).None? <==> !Walkable(root.resources) || !Walkable(root.runtime) || exists e :: e in root.crates && Stops(e)
    ensures
      Collected(root).Some? ==>
        forall p :: p in Collected(root).value <==>
          || p in FIXED
          || Below(root.resources, "resources", p)
          || Below(root.runtime, "prime-agent-runtime", p)
          || exists e :: e in root.crates && OfCrate(e, p)
  {
    hide Walkable, Below, Paths, AllCrates, Stops, OfCrate;
    PathsAre(root.resources, "resources");
    PathsAre(root.runtime, "prime-agent-runtime");
    CratesAre(root.crates, |root.crates|);
    assert PAYLOAD + ["Cargo.toml", "Cargo.lock"] == FIXED;
    forall e ensures e in root.crates <==> exists i :: 0 <= i < |root.crates| && root.crates[i] == e {}
  }

  // ---------------------------------------------------------------- sorting

  /** Ord for String, and for str. */
  function ByBytes(): (string, string) -> bool {
    (a: string, b: string) => LexLe(Utf8.Encode(a), Utf8.Encode(b))
  }

  function ByCodePoints(): (string, string) -> bool {
    (a: string, b: string) => LexLe(CodePoints(a), CodePoints(b))
  }

  /** Vec::dedup: drops an element equal to the one before it. */
  function Dedup(s: seq<string>): (r: seq<string>)
    ensures |s| > 0 ==> |r| > 0 && r[0] == s[0]
  {
    if |s| <= 1 then s
    else if s[0] == s[1] then Dedup(s[1..])
    else [s[0]] + Dedup(s[1..])
  }

  /** The build script's list. */
  function RustFiles(found: seq<string>): seq<string> {
    Dedup(SortBy(MapSeq(found, Slashed), ByBytes()))
  }

  /** The installer's list; a set has no order, so its elements may be listed in any. */
  ghost predicate ListsSet(listing: seq<string>, found: seq<string>) {
    Distinct(listing) && forall p :: p in listing <==> p in found
  }

  function PythonFiles(listing: seq<string>): seq<string> {
    SortBy(listing, ByCodePoints())
  }

  // ---------------------------------------------------------------- the same list

  lemma OrdersAgree(a: string, b: string)
    ensures ByBytes()(a, b) == ByCodePoints()(a, b)
  {
    Utf8.OrderAgrees(a, b);
  }

  lemma CodePointOrder()
    ensures TotalPreorder(ByCodePoints())
    ensures forall a, b :: ByCodePoints()(a, b) && ByCodePoints()(b, a) ==> a == b
  {
    forall a, b ensures ByCodePoints()(a, b) || ByCodePoints()(b, a) {
      LexTotal(CodePoints(a), CodePoints(b));
    }
    forall a, b | ByCodePoints()(a, b) && ByCodePoints()(b, a) ensures a == b {
      LexTotal(CodePoints(a), CodePoints(b));
      CodePointsInjective(a, b);
    }
    forall a, b, c | ByCodePoints()(a, b) && ByCodePoints()(b, c) ensures ByCodePoints()(a, c) {
      LexTransitive(CodePoints(a), CodePoints(b), CodePoints(c));
    }
  }

  lemma {:induction false} InsertAgrees(x: string, s: seq<string>)
    ensures Insert(x, s, ByBytes()) == Insert(x, s, ByCodePoints())
  {
    if |s| > 0 {
      OrdersAgree(x, s[0]);
      InsertAgrees(x, s[1..]);
    }
  }

  lemma {:induction false} SortAgrees(s: seq<string>)
    ensures SortBy(s, ByBytes()) == SortBy(s, ByCodePoints())
  {
    if |s| > 0 {
      SortAgrees(s[1..]);
      InsertAgrees(s[0], SortBy(s[1..], ByBytes()));
    }
  }

  lemma {:induction false} DedupKeeps(s: seq<string>)
    ensures forall p :: p in Dedup(s) <==> p in s
  {
    if |s| > 1 {
      DedupKeeps(s[1..]);
      assert s == [s[0]] + s[1..];
    }
  }

  lemma {:induction false} DedupSorted(s: seq<string>, le: (string, string) -> bool)
    requires Sorted(s, le) && forall a, b :: le(a, b) && le(b, a) ==> a == b
    ensures Sorted(Dedup(s), le) && Distinct(Dedup(s))
  {
    if |s| > 1 {
      hide Sorted, Distinct;
      SortedTail(s, le);
      DedupSorted(s[1..], le);
      DedupKeeps(s[1..]);
      if s[0] != s[1] {
        forall p | p in Dedup(s[1..]) ensures le(s[0], p) && p != s[0] {
          HeadIsBelow(s, le, p);
        }
        InFront(s[0], Dedup(s[1..]), le);
      }
    }
  }

  lemma InFront(x: string, s: seq<string>, le: (string, string) -> bool)
    requires Sorted(s, le) && Distinct(s) && forall p :: p in s ==> le(x, p) && p != x
    ensures Sorted([x] + s, le) && Distinct([x] + s)
  {
    assert forall i :: 0 <= i < |s| ==> s[i] in s;
  }

  lemma HeadIsBelow(s: seq<string>, le: (string, string) -> bool, p: string)
    requires Sorted(s, le) && |s| > 1 && s[0] != s[1] && p in s[1..]
    requires forall a, b :: le(a, b) && le(b, a) ==> a == b
    ensures le(s[0], p) && p != s[0]
  {
    var k :| 0 < k < |s| && s[k] == p;
    assert le(s[0], s[1]);
    if k > 1 { assert le(s[1], s[k]); }
  }

  lemma SetHasOneListing(a: seq<string>, b: seq<string>, le: (string, string) -> bool)
    requires Sorted(a, le) && Sorted(b, le) && Distinct(a) && Distinct(b)
    requires forall p :: p in a <==> p in b
    requires TotalPreorder(le) && forall x, y :: le(x, y) && le(y, x) ==> x == y
    ensures a == b
  {
    forall p ensures multiset(a)[p] == multiset(b)[p] {
      DistinctOnce(a, p);
      DistinctOnce(b, p);
    }
    assert multiset(a) == multiset(b);
    SortedUnique(a, b, le);
  }

  lemma SortKeeps(s: seq<string>, le: (string, string) -> bool)
    ensures forall p :: p in SortBy(s, le) <==> p in s
  {
    SortPermutes(s, le);
    forall p ensures p in SortBy(s, le) <==> p in s {
      assert p in multiset(SortBy(s, le)) <==> p in multiset(s);
    }
  }

  /** The build script's list is strictly ordered, without repetition, and holds exactly the rewritten paths. */
  lemma RustFilesAre(found: seq<string>)
    ensures Sorted(RustFiles(found), ByCodePoints()) && Distinct(RustFiles(found))
    ensures forall p :: p in RustFiles(found) <==> p in MapSeq(found, Slashed)
  {
    var s := MapSeq(found, Slashed);
    CodePointOrder();
    SortAgrees(s);
    SortSorted(s, ByCodePoints());
    SortKeeps(s, ByCodePoints());
    DedupSorted(SortBy(s, ByCodePoints()), ByCodePoints());
    DedupKeeps(SortBy(s, ByCodePoints()));
  }

  lemma PythonFilesAre(listing: seq<string>)
    requires Distinct(listing)
    ensures Sorted(PythonFiles(listing), ByCodePoints()) && Distinct(PythonFiles(listing))
    ensures forall p :: p in PythonFiles(listing) <==> p in listing
  {
    CodePointOrder();
    SortSorted(listing, ByCodePoints());
    SortKeeps(listing, ByCodePoints());
    SortPermutes(listing, ByCodePoints());
    DistinctPermuted(listing, PythonFiles(listing));
  }

  lemma SlashedIs(p: string)
    ensures '\\' !in Slashed(p)
    ensures '\\' !in p ==> Slashed(p) == p
  {
  }

  /** From the same paths, in whatever order each program found them, the two lists are equal exactly when no path
      contains a backslash, which the build script rewrites and the installer (where it can occur) does not. */
  lemma ListsEqualIff(rust: seq<string>, python: seq<string>, listing: seq<string>)
    requires forall p :: p in rust <==> p in python
    requires ListsSet(listing, python)
    ensures RustFiles(rust) == PythonFiles(listing) <==> forall p :: p in python ==> '\\' !in p
  {
    RustFilesAre(rust);
    PythonFilesAre(listing);
    if forall p :: p in python ==> '\\' !in p {
      forall p ensures p in MapSeq(rust, Slashed) <==> p in rust {
        Rewritten(rust, p);
      }
      CodePointOrder();
      SetHasOneListing(RustFiles(rust), PythonFiles(listing), ByCodePoints());
    } else {
      var p :| p in python && '\\' in p;
      NeverRewrittenTo(rust, p);
    }
  }

  lemma Rewritten(rust: seq<string>, p: string)
    requires forall q :: q in rust ==> '\\' !in q
    ensures p in MapSeq(rust, Slashed) <==> p in rust
  {
    assert forall i :: 0 <= i < |rust| ==> rust[i] in rust && MapSeq(rust, Slashed)[i] == Slashed(rust[i]);
    forall i | 0 <= i < |rust| ensures MapSeq(rust, Slashed)[i] == rust[i] { SlashedIs(rust[i]); }
    assert MapSeq(rust, Slashed) == rust;
  }

  lemma NeverRewrittenTo(rust: seq<string>, p: string)
    requires '\\' in p
    ensures p !in MapSeq(rust, Slashed)
  {
    forall i | 0 <= i < |rust| ensures MapSeq(rust, Slashed)[i] != p { SlashedIs(rust[i]); }
  }

  // ---------------------------------------------------------------- listing orders

  /** The same tree, listed in different orders. */
  ghost predicate Same(a: Node, b: Node)
    decreases a
  {
    match a
    case File => b.File?
    case Other => b.Other?
    case Symlink(toFile) => b.Symlink? && b.toFile == toFile
    case Dir(entries) => b.Dir? && SameEntries(entries, b.entries)
  }

  function Names(entries: seq<Entry>): set<string> {
    set i | 0 <= i < |entries| :: entries[i].name
  }

  ghost predicate SameEntries(es: seq<Entry>, fs: seq<Entry>)
    decreases es
  {
    && Names(es) == Names(fs)
    && (forall i, j :: 0 <= i < |es| && 0 <= j < |fs| && es[i].name == fs[j].name ==> Same(es[i].node, fs[j].node))
  }

  type Outcome = Option<seq<string>>

  /** Both fail, or both find the same paths. */
  ghost predicate Alike(a: Outcome, b: Outcome) {
    a.Some? == b.Some? && (a.Some? ==> forall p :: p in a.value <==> p in b.value)
  }

  lemma AlikeBoth(a: Outcome, b: Outcome, c: Outcome, d: Outcome)
    requires Alike(a, c) && Alike(b, d)
    ensures Alike(Both(a, b), Both(c, d))
  {
  }

  function Gather(parts: seq<Outcome>): Outcome {
    if |parts| == 0 then Some([]) else Both(Gather(parts[..|parts| - 1]), parts[|parts| - 1])
  }

  lemma {:induction false} GatherMeaning(parts: seq<Outcome>)
    ensures Gather(parts).Some? <==> forall i :: 0 <= i < |parts| ==> parts[i].Some?
    ensures Gather(parts).Some? ==> forall p :: p in Gather(parts).value <==> exists i :: 0 <= i < |parts| && p in parts[i].value
  {
    if |parts| > 0 {
      GatherMeaning(parts[..|parts| - 1]);
    }
  }

  /** Each part of one has a like part in the other. */
  ghost predicate Covered(xs: seq<Outcome>, ys: seq<Outcome>) {
    forall i :: 0 <= i < |xs| ==> HasLike(xs[i], ys)
  }

  ghost predicate HasLike(x: Outcome, ys: seq<Outcome>) {
    exists j :: 0 <= j < |ys| && Alike(x, ys[j])
  }

  lemma GatherWithin(xs: seq<Outcome>, ys: seq<Outcome>)
    requires Covered(xs, ys) && Gather(ys).Some?
    ensures Gather(xs).Some? && forall p :: p in Gather(xs).value ==> p in Gather(ys).value
  {
    GatherMeaning(xs);
    GatherMeaning(ys);
  }

  lemma GatherAlike(xs: seq<Outcome>, ys: seq<Outcome>)
    requires Covered(xs, ys) && Covered(ys, xs)
    ensures Alike(Gather(xs), Gather(ys))
  {
    if Gather(xs).Some? { GatherWithin(ys, xs); }
    if Gather(ys).Some? { GatherWithin(xs, ys); }
  }

  function EntryParts(entries: seq<Entry>, n: nat, at: string): seq<Outcome>
    requires n <= |entries|
  {
    seq(n, i requires 0 <= i < n => EntryPaths(entries[i], at))
  }

  function CrateParts(crates: seq<Entry>, n: nat): seq<Outcome>
    requires n <= |crates|
  {
    seq(n, i requires 0 <= i < n => CratePaths(crates[i]))
  }

  lemma {:induction false} AllPathsGather(entries: seq<Entry>, n: nat, at: string)
    requires n <= |entries|
    ensures AllPaths(entries, n, at) == Gather(EntryParts(entries, n, at))
  {
    if n > 0 {
      AllPathsGather(entries, n - 1, at);
      assert EntryParts(entries, n, at)[..n - 1] == EntryParts(entries, n - 1, at);
    }
  }

  lemma {:induction false} AllCratesGather(crates: seq<Entry>, n: nat)
    requires n <= |crates|
    ensures AllCrates(crates, n) == Gather(CrateParts(crates, n))
  {
    if n > 0 {
      AllCratesGather(crates, n - 1);
      assert CrateParts(crates, n)[..n - 1] == CrateParts(crates, n - 1);
    }
  }

  /** The listing order decides neither whether a walk succeeds nor what it finds. */
  lemma {:induction false} SamePaths(a: Node, b: Node, at: string)
    requires Same(a, b)
    ensures Alike(Paths(a, at), Paths(b, at))
    decreases a
  {
    if a.Dir? {
      var es, fs := a.entries, b.entries;
      forall i, j | 0 <= i < |es| && 0 <= j < |fs| && es[i].name == fs[j].name
        ensures Alike(EntryPaths(es[i], at), EntryPaths(fs[j], at))
      {
        SamePaths(es[i].node, fs[j].node, at + "/" + es[i].name);
        SameEntry(es[i], fs[j], at);
      }
      SameDir(es, fs, at);
    }
  }

  lemma SameEntry(e: Entry, f: Entry, at: string)
    requires e.name == f.name && Same(e.node, f.node)
    requires Alike(Paths(e.node, at + "/" + e.name), Paths(f.node, at + "/" + f.name))
    ensures Alike(EntryPaths(e, at), EntryPaths(f, at))
  {
    hide Ignored;
  }

  lemma SameDir(es: seq<Entry>, fs: seq<Entry>, at: string)
    requires Names(es) == Names(fs)
    requires
      forall i, j :: 0 <= i < |es| && 0 <= j < |fs| && es[i].name == fs[j].name ==>
        Alike(EntryPaths(es[i], at), EntryPaths(fs[j], at))
    ensures Alike(AllPaths(es, |es|, at), AllPaths(fs, |fs|, at))
  {
    hide Alike, EntryPaths, AllPaths, Gather;
    var xs, ys := EntryParts(es, |es|, at), EntryParts(fs, |fs|, at);
    forall i, j | 0 <= i < |es| && 0 <= j < |fs| && es[i].name == fs[j].name ensures Alike(ys[j], xs[i]) && Alike(xs[i], ys[j]) {
      assert Alike(EntryPaths(es[i], at), EntryPaths(fs[j], at));
      AlikeFlips(xs[i], ys[j]);
    }
    CoveredByNames(es, fs, xs, ys);
    CoveredByNames(fs, es, ys, xs);
    GatherAlike(xs, ys);
    AllPathsGather(es, |es|, at);
    AllPathsGather(fs, |fs|, at);
  }

  lemma AlikeFlips(a: Outcome, b: Outcome)
    requires Alike(a, b)
    ensures Alike(b, a)
  {
  }

  lemma CoveredByNames(es: seq<Entry>, fs: seq<Entry>, xs: seq<Outcome>, ys: seq<Outcome>)
    requires |xs| == |es| && |ys| == |fs|
    requires Names(es) == Names(fs)
    requires forall i, j :: 0 <= i < |es| && 0 <= j < |fs| && es[i].name == fs[j].name ==> Alike(xs[i], ys[j])
    ensures Covered(xs, ys)
  {
    forall i | 0 <= i < |xs| ensures HasLike(xs[i], ys) {
      assert es[i].name in Names(es);
      var j :| 0 <= j < |fs| && fs[j].name == es[i].name;
      assert Alike(xs[i], ys[j]);
    }
  }

  lemma {:induction false} LookupFinds(entries: seq<Entry>, name: string)
    returns (i: nat)
    ensures Lookup(entries, name).None? ==> name !in Names(entries)
    ensures Lookup(entries, name).Some? ==> i < |entries| && entries[i].name == name && Lookup(entries, name).value == entries[i].node
  {
    i := 0;
    if |entries| > 0 && entries[0].name != name {
      i := LookupFinds(entries[1..], name);
      assert forall k :: 0 < k < |entries| ==> entries[k] == entries[1..][k - 1] && entries[k].name in Names(entries[1..]);
      i := i + 1;
    }
  }

  lemma SameLookup(es: seq<Entry>, fs: seq<Entry>, name: string)
    requires SameEntries(es, fs)
    ensures Lookup(es, name).Some? == Lookup(fs, name).Some?
    ensures Lookup(es, name).Some? ==> Same(Lookup(es, name).value, Lookup(fs, name).value)
    ensures IsFile(Lookup(es, name)) == IsFile(Lookup(fs, name))
  {
    var i := LookupFinds(es, name);
    var j := LookupFinds(fs, name);
    assert Lookup(es, name).Some? ==> es[i].name in Names(es);
    assert Lookup(fs, name).Some? ==> fs[j].name in Names(fs);
  }

  lemma SameCrate(e: Entry, f: Entry)
    requires e.name == f.name && Same(e.node, f.node)
    ensures Alike(CratePaths(e), CratePaths(f))
  {
    if e.node.Dir? {
      var es, fs := e.node.entries, f.node.entries;
      SameLookup(es, fs, "Cargo.toml");
      SameLookup(es, fs, "build.rs");
      SameLookup(es, fs, "build_provenance.rs");
      SameLookup(es, fs, "src");
      if Lookup(es, "src").Some? {
        SamePaths(Lookup(es, "src").value, Lookup(fs, "src").value, "crates/" + e.name + "/src");
      }
    }
  }

  ghost predicate SameRoot(a: Root, b: Root) {
    Same(a.resources, b.resources) && Same(a.runtime, b.runtime) && SameEntries(a.crates, b.crates)
  }

  lemma SameCollected(a: Root, b: Root)
    requires SameRoot(a, b)
    ensures Alike(Collected(a), Collected(b))
  {
    hide *;
    var r, q := Paths(a.resources, "resources"), Paths(b.resources, "resources");
    var t, u := Paths(a.runtime, "prime-agent-runtime"), Paths(b.runtime, "prime-agent-runtime");
    var fixed := Some(PAYLOAD + ["Cargo.toml", "Cargo.lock"]);
    RootParts(a, b);
    SamePaths(a.resources, b.resources, "resources");
    SamePaths(a.runtime, b.runtime, "prime-agent-runtime");
    SameCrates(a.crates, b.crates);
    AlikeBoth(fixed, r, fixed, q);
    AlikeBoth(Both(fixed, r), t, Both(fixed, q), u);
    AlikeBoth(Both(Both(fixed, r), t), AllCrates(a.crates, |a.crates|), Both(Both(fixed, q), u), AllCrates(b.crates, |b.crates|));
  }

  lemma RootParts(a: Root, b: Root)
    requires SameRoot(a, b)
    ensures Same(a.resources, b.resources) && Same(a.runtime, b.runtime) && SameEntries(a.crates, b.crates)
    ensures Alike(Some(PAYLOAD + ["Cargo.toml", "Cargo.lock"]), Some(PAYLOAD + ["Cargo.toml", "Cargo.lock"]))
    ensures
      forall x: Root :: Collected(x) ==
        Both(Both(Both(Some(PAYLOAD + ["Cargo.toml", "Cargo.lock"]), Paths(x.resources, "resources")),
          Paths(x.runtime, "prime-agent-runtime")), AllCrates(x.crates, |x.crates|))
  {
  }

  lemma SameCrates(es: seq<Entry>, fs: seq<Entry>)
    requires SameEntries(es, fs)
    ensures Alike(AllCrates(es, |es|), AllCrates(fs, |fs|))
  {
    assert Names(es) == Names(fs);
    forall i, j | 0 <= i < |es| && 0 <= j < |fs| && es[i].name == fs[j].name ensures Alike(CratePaths(es[i]), CratePaths(fs[j])) {
      SameCrate(es[i], fs[j]);
    }
    hide Alike, CratePaths, AllCrates, Gather, SameEntries, Same;
    var xs, ys := CrateParts(es, |es|), CrateParts(fs, |fs|);
    forall i, j | 0 <= i < |es| && 0 <= j < |fs| && es[i].name == fs[j].name ensures Alike(ys[j], xs[i]) && Alike(xs[i], ys[j]) {
      assert Alike(CratePaths(es[i]), CratePaths(fs[j]));
      AlikeFlips(xs[i], ys[j]);
    }
    CoveredByNames(es, fs, xs, ys);
    CoveredByNames(fs, es, ys, xs);
    GatherAlike(xs, ys);
    AllCratesGather(es, |es|);
    AllCratesGather(fs, |fs|);
  }

  /** The two programs, each listing the same tree in an order of its own, fail together, and where they succeed they
      produce the same list exactly when no listed path contains a backslash. */
  lemma ManifestsAgree(rust: Root, python: Root, listing: seq<string>)
    requires SameRoot(rust, python)
    requires Collected(python).Some? ==> ListsSet(listing, Collected(python).value)
    ensures Collected(rust).Some? == Collected(python).Some?
    ensures
      Collected(python).Some? ==>
        (RustFiles(Collected(rust).value) == PythonFiles(listing) <==> forall p :: p in Collected(python).value ==> '\\' !in p)
  {
    SameCollected(rust, python);
    if Collected(python).Some? {
      ListsEqualIff(Collected(rust).value, Collected(python).value, listing);
    }
  }

  // ---------------------------------------------------------------- payload lists, which are not deduplicated

  ghost predicate DistinctNames(entries: seq<Entry>) {
    forall i, j :: 0 <= i < j < |entries| ==> entries[i].name != entries[j].name
  }

  /** Names as a file system has them: once in a directory, and without a slash. */
  ghost predicate WellNamed(node: Node)
    decreases node
  {
    node.Dir? ==>
      && DistinctNames(node.entries)
      && forall i :: 0 <= i < |node.entries| ==> '/' !in node.entries[i].name && WellNamed(node.entries[i].node)
  }

  /** The path continues with this name below `at`. */
  ghost predicate Through(p: string, at: string, name: string) {
    var n := |at| + 1 + |name|;
    && n <= |p| && p[..n] == at + "/" + name
    && (n == |p| || p[n] == '/')
  }

  lemma OneWayThrough(p: string, at: string, a: string, b: string)
    requires Through(p, at, a) && Through(p, at, b) && '/' !in a && '/' !in b && |a| <= |b|
    ensures a == b
  {
    forall k | 0 <= k < |a| ensures a[k] == b[k] {
      ThroughLetter(p, at, a, k);
      ThroughLetter(p, at, b, k);
    }
    if |a| < |b| { ThroughLetter(p, at, b, |a|); }
  }

  lemma ThroughLetter(p: string, at: string, name: string, k: nat)
    requires Through(p, at, name) && k < |name|
    ensures |at| + 1 + k < |p| && p[|at| + 1 + k] == name[k] && name[k] in name
  {
    assert p[|at| + 1 + k] == p[..|at| + 1 + |name|][|at| + 1 + k] == (at + "/" + name)[|at| + 1 + k];
  }

  lemma {:induction false} PathsGoThrough(node: Node, at: string)
    requires Paths(node, at).Some?
    ensures forall p :: p in Paths(node, at).value ==> exists i :: 0 <= i < |node.entries| && Through(p, at, node.entries[i].name)
    decreases node
  {
    var es := node.entries;
    AllPathsGather(es, |es|, at);
    GatherMeaning(EntryParts(es, |es|, at));
    forall p | p in Paths(node, at).value ensures exists i :: 0 <= i < |es| && Through(p, at, es[i].name) {
      var i :| 0 <= i < |es| && p in EntryParts(es, |es|, at)[i].value;
      EntryGoesThrough(es[i], at, p);
    }
  }

  lemma {:induction false} EntryGoesThrough(e: Entry, at: string, p: string)
    requires EntryPaths(e, at).Some? && p in EntryPaths(e, at).value
    ensures Through(p, at, e.name)
    decreases e
  {
    hide Ignored;
    var below := at + "/" + e.name;
    if e.node.Dir? {
      PathsGoThrough(e.node, below);
      var i :| 0 <= i < |e.node.entries| && Through(p, below, e.node.entries[i].name);
      var n := |below| + 1 + |e.node.entries[i].name|;
      assert p[..|below|] == p[..n][..|below|] == below;
      assert p[|below|] == p[..n][|below|] == '/';
    } else {
      assert p[..|p|] == p;
    }
  }

  /** No path is found twice. */
  lemma {:induction false} PathsDistinct(node: Node, at: string)
    requires WellNamed(node) && Paths(node, at).Some?
    ensures Distinct(Paths(node, at).value)
    decreases node
  {
    AllPathsDistinct(node.entries, |node.entries|, at);
  }

  lemma {:induction false} AllPathsDistinct(entries: seq<Entry>, n: nat, at: string)
    requires n <= |entries| && AllPaths(entries, n, at).Some? && DistinctNames(entries)
    requires forall i :: 0 <= i < |entries| ==> '/' !in entries[i].name && WellNamed(entries[i].node)
    ensures Distinct(AllPaths(entries, n, at).value)
    decreases entries, n
  {
    if n > 0 {
      AllPathsDistinct(entries, n - 1, at);
      EntryDistinct(entries[n - 1], at);
      var a, b := AllPaths(entries, n - 1, at).value, EntryPaths(entries[n - 1], at).value;
      hide EntryPaths, WellNamed, Ignored;
      forall p | p in a ensures p !in b {
        NotAgain(entries, n - 1, at, p);
      }
      DistinctJoin(a, b);
    }
  }

  lemma {:induction false} EntryDistinct(e: Entry, at: string)
    requires EntryPaths(e, at).Some? && WellNamed(e.node)
    ensures Distinct(EntryPaths(e, at).value)
    decreases e
  {
    hide Ignored;
    if e.node.Dir? && !Ignored(e.name) { PathsDistinct(e.node, at + "/" + e.name); }
  }

  lemma NotAgain(entries: seq<Entry>, n: nat, at: string, p: string)
    requires n < |entries| && AllPaths(entries, n, at).Some? && EntryPaths(entries[n], at).Some? && DistinctNames(entries)
    requires forall i :: 0 <= i < |entries| ==> '/' !in entries[i].name
    requires p in AllPaths(entries, n, at).value
    ensures p !in EntryPaths(entries[n], at).value
  {
    hide EntryPaths, Through;
    AllPathsGather(entries, n, at);
    GatherMeaning(EntryParts(entries, n, at));
    var i :| 0 <= i < n && p in EntryParts(entries, n, at)[i].value;
    EntryGoesThrough(entries[i], at, p);
    if p in EntryPaths(entries[n], at).value {
      EntryGoesThrough(entries[n], at, p);
      if |entries[i].name| <= |entries[n].name| {
        OneWayThrough(p, at, entries[i].name, entries[n].name);
      } else {
        OneWayThrough(p, at, entries[n].name, entries[i].name);
      }
    }
  }

  lemma DistinctJoin(a: seq<string>, b: seq<string>)
    requires Distinct(a) && Distinct(b) && forall p :: p in a ==> p !in b
    ensures Distinct(a + b)
  {
    forall i, j | 0 <= i < j < |a + b| ensures (a + b)[i] != (a + b)[j] {
      if i < |a| <= j { assert a[i] in a && b[j - |a|] in b; }
    }
  }

  /** payload_files before sorting. */
  function PayloadFound(root: Root): Option<seq<string>> {
    Both(Both(Some(PAYLOAD), Paths(root.resources, "resources")), Paths(root.runtime, "prime-agent-runtime"))
  }

  function RustPayload(found: seq<string>): seq<string> { SortBy(MapSeq(found, Slashed), ByBytes()) }

  function PythonPayload(found: seq<string>): seq<string> { SortBy(found, ByCodePoints()) }

  lemma PayloadDistinct(root: Root)
    requires WellNamed(root.resources) && WellNamed(root.runtime) && PayloadFound(root).Some?
    ensures Distinct(PayloadFound(root).value)
  {
    var r, t := Paths(root.resources, "resources").value, Paths(root.runtime, "prime-agent-runtime").value;
    PathsDistinct(root.resources, "resources");
    PathsDistinct(root.runtime, "prime-agent-runtime");
    FirstLetter(root.resources, "resources");
    FirstLetter(root.runtime, "prime-agent-runtime");
    FixedNames();
    hide Paths, WellNamed;
    DistinctJoin(PAYLOAD, r);
    DistinctJoin(PAYLOAD + r, t);
  }

  lemma FirstLetter(node: Node, at: string)
    requires |at| > 0 && Paths(node, at).Some?
    ensures forall p :: p in Paths(node, at).value ==> |p| > 0 && p[0] == at[0]
  {
    PathsGoThrough(node, at);
    forall p | p in Paths(node, at).value ensures |p| > 0 && p[0] == at[0] {
      var i :| 0 <= i < |node.entries| && Through(p, at, node.entries[i].name);
      assert p[0] == p[..|at| + 1 + |node.entries[i].name|][0];
    }
  }

  lemma FixedNames()
    ensures Distinct(PAYLOAD)
    ensures forall p :: p in PAYLOAD ==> |p| > 0 && p[0] != "resources"[0] && p[0] != "prime-agent-runtime"[0]
    ensures "resources"[0] != "prime-agent-runtime"[0]
  {
  }

  lemma SamePayload(a: Root, b: Root)
    requires SameRoot(a, b)
    ensures Alike(PayloadFound(a), PayloadFound(b))
  {
    hide Paths, Same, SameEntries, Both;
    SamePaths(a.resources, b.resources, "resources");
    SamePaths(a.runtime, b.runtime, "prime-agent-runtime");
    var fixed := Some(PAYLOAD);
    var r, q := Paths(a.resources, "resources"), Paths(b.resources, "resources");
    AlikeBoth(fixed, r, fixed, q);
    AlikeBoth(Both(fixed, r), Paths(a.runtime, "prime-agent-runtime"), Both(fixed, q), Paths(b.runtime, "prime-agent-runtime"));
  }

  /** Exactly what the payload lists: its fixed names and every regular file below its two directories; and when it fails. */
  lemma PayloadIs(root: Root)
    ensures PayloadFound(root).Some? <==> Walkable(root.resources) && Walkable(root.runtime)
    ensures
      PayloadFound(root).Some? ==>
        forall p :: p in PayloadFound(root).value <==>
          || p in FIXED[..6]
          || Below(root.resources, "resources", p)
          || Below(root.runtime, "prime-agent-runtime", p)
  {
    hide Walkable, Below, Paths;
    PathsAre(root.resources, "resources");
    PathsAre(root.runtime, "prime-agent-runtime");
    assert PAYLOAD == FIXED[..6];
  }

  /** Without deduplication the payload lists, too, agree exactly when no path contains a backslash. */
  lemma PayloadsAgree(rust: Root, python: Root)
    requires SameRoot(rust, python)
    requires WellNamed(rust.resources) && WellNamed(rust.runtime) && WellNamed(python.resources) && WellNamed(python.runtime)
    ensures PayloadFound(rust).Some? == PayloadFound(python).Some?
    ensures
      PayloadFound(python).Some? ==>
        (RustPayload(PayloadFound(rust).value) == PythonPayload(PayloadFound(python).value)
         <==> forall p :: p in PayloadFound(python).value ==> '\\' !in p)
  {
    hide PayloadFound, SameRoot, WellNamed;
    SamePayload(rust, python);
    if PayloadFound(python).Some? {
      PayloadDistinct(rust);
      PayloadDistinct(python);
      PayloadListsEqualIff(PayloadFound(rust).value, PayloadFound(python).value);
    }
  }

  lemma PayloadListsEqualIff(rust: seq<string>, python: seq<string>)
    requires Distinct(rust) && Distinct(python) && forall p :: p in rust <==> p in python
    ensures RustPayload(rust) == PythonPayload(python) <==> forall p :: p in python ==> '\\' !in p
  {
    var s := MapSeq(rust, Slashed);
    SortAgrees(s);
    PythonFilesAre(python);
    SortKeeps(s, ByCodePoints());
    if forall p :: p in python ==> '\\' !in p {
      Unchanged(rust);
      PythonFilesAre(rust);
      CodePointOrder();
      SetHasOneListing(PythonPayload(rust), PythonPayload(python), ByCodePoints());
    } else {
      var p :| p in python && '\\' in p;
      NeverRewrittenTo(rust, p);
    }
  }

  lemma Unchanged(rust: seq<string>)
    requires forall q :: q in rust ==> '\\' !in q
    ensures MapSeq(rust, Slashed) == rust
  {
    forall i | 0 <= i < |rust| ensures MapSeq(rust, Slashed)[i] == rust[i] {
      assert rust[i] in rust;
      SlashedIs(rust[i]);
    }
  }

  // ---------------------------------------------------------------- runtime sources

  /** A file name with the extension py, as Rust reads it: a leading dot alone starts no extension. */
  predicate RustPicks(name: string) { EndsWith(name, ".py") && |name| > 3 }

  /** A file name that the pattern *.py matches. */
  predicate PythonPicks(name: string) { EndsWith(name, ".py") }

  function PickedNames(entries: seq<Entry>, picks: string -> bool): seq<string> {
    if |entries| == 0 then []
    else (if picks(entries[0].name) then [entries[0].name] else []) + PickedNames(entries[1..], picks)
  }

  /** The sorted names of the runtime's sources; None when one is not a regular file, or a required one is missing. */
  function RuntimeNames(entries: seq<Entry>, picks: string -> bool, le: (string, string) -> bool): Option<seq<string>> {
    var names := PickedNames(entries, picks);
    if (exists e :: e in entries && picks(e.name) && !e.node.File?) || "lifecycle.py" !in names || "__init__.py" !in names then None
    else Some(SortBy(names, le))
  }

  lemma {:induction false} PickedAre(entries: seq<Entry>, picks: string -> bool)
    requires DistinctNames(entries)
    ensures Distinct(PickedNames(entries, picks))
    ensures forall n :: n in PickedNames(entries, picks) <==> picks(n) && n in Names(entries)
  {
    if |entries| > 0 {
      var rest := entries[1..];
      PickedAre(rest, picks);
      assert forall i :: 0 < i < |entries| ==> entries[i] == rest[i - 1];
      NamesStep(entries);
    }
  }

  lemma NamesStep(entries: seq<Entry>)
    requires |entries| > 0
    ensures Names(entries) == {entries[0].name} + Names(entries[1..])
    ensures DistinctNames(entries) ==> entries[0].name !in Names(entries[1..])
  {
    assert forall i :: 0 < i < |entries| ==> entries[i] == entries[1..][i - 1];
    forall n ensures n in Names(entries) <==> n == entries[0].name || n in Names(entries[1..]) {
      if n in Names(entries) && n != entries[0].name {
        var i :| 0 <= i < |entries| && entries[i].name == n;
        assert entries[1..][i - 1].name == n;
      }
      if n in Names(entries[1..]) {
        var i :| 0 <= i < |entries[1..]| && entries[1..][i].name == n;
        assert entries[i + 1].name == n;
      }
    }
  }

  lemma RequiredArePicked()
    ensures RustPicks("lifecycle.py") && RustPicks("__init__.py") && PythonPicks("lifecycle.py") && PythonPicks("__init__.py")
  {
    assert "lifecycle.py"[9..] == ".py" && "__init__.py"[8..] == ".py";
  }

  lemma PicksDiffer(name: string)
    ensures RustPicks(name) <==> PythonPicks(name) && name != ".py"
  {
    if |name| == 3 { assert name[0..] == name; }
  }

  ghost predicate Irregular(entries: seq<Entry>, picks: string -> bool) {
    exists e :: e in entries && picks(e.name) && !e.node.File?
  }

  lemma SameIrregular(es: seq<Entry>, fs: seq<Entry>, p: string -> bool, q: string -> bool)
    requires SameEntries(es, fs) && forall n :: n in Names(es) && p(n) ==> q(n)
    ensures Irregular(es, p) ==> Irregular(fs, q)
  {
    if e :| e in es && p(e.name) && !e.node.File? {
      var i :| 0 <= i < |es| && es[i] == e;
      assert es[i].name in Names(es);
      var j :| 0 <= j < |fs| && fs[j].name == es[i].name;
      assert Same(es[i].node, fs[j].node);
      assert fs[j] in fs;
    }
  }

  lemma SameEntriesFlip(es: seq<Entry>, fs: seq<Entry>)
    requires SameEntries(es, fs)
    ensures forall i, j :: 0 <= i < |es| && 0 <= j < |fs| && es[i].name == fs[j].name ==> (es[i].node.File? <==> fs[j].node.File?)
  {
    forall i, j | 0 <= i < |es| && 0 <= j < |fs| && es[i].name == fs[j].name ensures es[i].node.File? <==> fs[j].node.File? {
      assert Same(es[i].node, fs[j].node);
    }
  }

  /** The build script lists, in order, exactly the names in the directory that are a non-empty stem and .py; it fails
      exactly when one of them is no regular file, or lifecycle.py or __init__.py is not there. */
  lemma RuntimeIs(entries: seq<Entry>)
    requires DistinctNames(entries)
    ensures
      var names := RuntimeNames(entries, RustPicks, ByBytes());
      && (names.None? <==>
            || (exists e, stem :: e in entries && e.name == stem + ".py" && |stem| > 0 && e.node != File)
            || "lifecycle.py" !in Names(entries) || "__init__.py" !in Names(entries))
      && (names.Some? ==>
            && Sorted(names.value, ByCodePoints()) && Distinct(names.value)
            && forall n :: n in names.value <==> n in Names(entries) && exists stem :: |stem| > 0 && n == stem + ".py")
  {
    hide RustPicks;
    var picked := PickedNames(entries, RustPicks);
    PickedAre(entries, RustPicks);
    RequiredArePicked();
    forall n ensures RustPicks(n) <==> exists stem :: |stem| > 0 && n == stem + ".py" { RustPicksIs(n); }
    PythonFilesAre(picked);
    SortAgrees(picked);
  }

  lemma RustPicksIs(name: string)
    ensures RustPicks(name) <==> exists stem :: |stem| > 0 && name == stem + ".py"
  {
    if RustPicks(name) { assert name == name[..|name| - 3] + ".py"; }
    if stem :| |stem| > 0 && name == stem + ".py" { assert name[|stem|..] == ".py"; }
  }

  /** The two programs list the same runtime sources exactly when the directory holds no file named .py, or the build
      script fails on it, and then the installer fails too. */
  lemma RuntimeAgreesIff(es: seq<Entry>, fs: seq<Entry>)
    requires SameEntries(es, fs) && DistinctNames(es) && DistinctNames(fs)
    ensures
      var rust, python := RuntimeNames(es, RustPicks, ByBytes()), RuntimeNames(fs, PythonPicks, ByCodePoints());
      rust == python <==> ".py" !in Names(es) || rust.None?
  {
    hide RustPicks, PythonPicks, Same;
    var rust, python := RuntimeNames(es, RustPicks, ByBytes()), RuntimeNames(fs, PythonPicks, ByCodePoints());
    var a, b := PickedNames(es, RustPicks), PickedNames(fs, PythonPicks);
    PickedAre(es, RustPicks);
    PickedAre(fs, PythonPicks);
    RequiredArePicked();
    forall n ensures RustPicks(n) <==> PythonPicks(n) && n != ".py" { PicksDiffer(n); }
    SameIrregular(es, fs, RustPicks, PythonPicks);
    assert rust.None? ==> python.None?;
    SortKeeps(a, ByBytes());
    SortKeeps(b, ByCodePoints());
    if ".py" in Names(es) {
      assert PythonPicks(".py") by { DotPy(); }
      assert ".py" in b && ".py" !in a;
    } else {
      IrregularBack(es, fs);
      SortAgrees(a);
      PythonFilesAre(a);
      PythonFilesAre(b);
      CodePointOrder();
      SetHasOneListing(SortBy(a, ByCodePoints()), SortBy(b, ByCodePoints()), ByCodePoints());
    }
  }

  lemma DotPy()
    ensures PythonPicks(".py")
  {
    assert ".py"[0..] == ".py";
  }

  lemma IrregularBack(es: seq<Entry>, fs: seq<Entry>)
    requires SameEntries(es, fs) && ".py" !in Names(es)
    ensures Irregular(fs, PythonPicks) ==> Irregular(es, RustPicks)
  {
    SameEntriesFlip(es, fs);
    if e :| e in fs && PythonPicks(e.name) && !e.node.File? {
      var j :| 0 <= j < |fs| && fs[j] == e;
      assert fs[j].name in Names(fs);
      var i :| 0 <= i < |es| && es[i].name == fs[j].name;
      assert es[i] in es && es[i].name in Names(es);
      PicksDiffer(es[i].name);
    }
  }

  // ---------------------------------------------------------------- framing

  /** A manifest line: the file's name and the digest of its content. */
  datatype Item = Item(name: string, digest: Bytes)

  /** The bytes that both programs feed to the outer hash. */
  function Stream(items: seq<Item>): Bytes {
    if |items| == 0 then [] else Utf8.Encode(items[0].name) + [0] + items[0].digest + Stream(items[1..])
  }

  /** A name without NUL, as every path is, and a 32-byte digest. */
  predicate Framed(item: Item) {
    '\0' !in item.name && |item.digest| == 32
  }

  lemma SplitAtZero(a: Bytes, x: Bytes, b: Bytes, y: Bytes)
    requires 0 !in a && 0 !in b && a + [0] + x == b + [0] + y
    ensures a == b && x == y
  {
    var s := a + [0] + x;
    FirstZero(a, x);
    FirstZero(b, y);
    assert |a| == |b|;
    assert s[..|a|] == a && s[..|b|] == b;
    assert s[|a| + 1..] == x && s[|b| + 1..] == y;
  }

  lemma FirstZero(a: Bytes, x: Bytes)
    requires 0 !in a
    ensures var s := a + [0] + x; s[|a|] == 0 && forall i :: 0 <= i < |a| ==> s[i] != 0
  {
  }

  /** The framing can be undone: equal streams come from equal names with equal digests, in the same order. */
  lemma {:induction false} StreamInjective(a: seq<Item>, b: seq<Item>)
    requires forall i :: 0 <= i < |a| ==> Framed(a[i])
    requires forall i :: 0 <= i < |b| ==> Framed(b[i])
    requires Stream(a) == Stream(b)
    ensures a == b
  {
    if |a| > 0 && |b| > 0 {
      var m, n := Utf8.Encode(a[0].name), Utf8.Encode(b[0].name);
      var x, y := a[0].digest + Stream(a[1..]), b[0].digest + Stream(b[1..]);
      assert Stream(a) == m + [0] + x && Stream(b) == n + [0] + y;
      Utf8.NoZero(a[0].name);
      Utf8.NoZero(b[0].name);
      SplitAtZero(m, x, n, y);
      Utf8.EncodeInjective(a[0].name, b[0].name);
      assert x[..32] == a[0].digest && y[..32] == b[0].digest;
      assert x[32..] == Stream(a[1..]) && y[32..] == Stream(b[1..]);
      StreamInjective(a[1..], b[1..]);
      assert a == [a[0]] + a[1..] && b == [b[0]] + b[1..];
    }
  }

  function Items(names: seq<string>, read: string -> Bytes, sha: Bytes -> Bytes): seq<Item> {
    seq(|names|, i requires 0 <= i < |names| => Item(names[i], sha(read(names[i]))))
  }

  function Aggregate(names: seq<string>, read: string -> Bytes, sha: Bytes -> Bytes): Bytes {
    sha(Stream(Items(names, read, sha)))
  }

  /** The loop of aggregate() and raw_aggregate(): feeds each name and the digest of its file; None for a name that is
      not a regular file. */
  method FeedManifest(names: seq<string>, read: string -> Option<Bytes>, sha: Bytes -> Bytes) returns (digest: Option<Bytes>)
    ensures digest.Some? <==> forall n :: n in names ==> read(n).Some?
    ensures digest.Some? ==> digest.value == Aggregate(names, n => if read(n).Some? then read(n).value else [], sha)
  {
    hide Stream, Items, Utf8.Encode;
    var content: string -> Bytes := n => if read(n).Some? then read(n).value else [];
    var fed: Bytes := [];
    ItemsNone(names, content, sha);
    for i := 0 to |names|
      invariant fed == Stream(Items(names[..i], content, sha))
      invariant forall k :: 0 <= k < i ==> read(names[k]).Some?
    {
      if read(names[i]).None? {
        assert names[i] in names;
        return None;
      }
      ItemsGrow(names, i, content, sha);
      fed := fed + Utf8.Encode(names[i]) + [0] + sha(content(names[i]));
    }
    assert names[..|names|] == names;
    digest := Some(sha(fed));
  }

  lemma ItemsNone(names: seq<string>, read: string -> Bytes, sha: Bytes -> Bytes)
    ensures Stream(Items(names[..0], read, sha)) == []
  {
  }

  lemma ItemsGrow(names: seq<string>, i: nat, read: string -> Bytes, sha: Bytes -> Bytes)
    requires i < |names|
    ensures
      Stream(Items(names[..i + 1], read, sha))
      == Stream(Items(names[..i], read, sha)) + Utf8.Encode(names[i]) + [0] + sha(read(names[i]))
  {
    var part := Item(names[i], sha(read(names[i])));
    assert Items(names[..i + 1], read, sha) == Items(names[..i], read, sha) + [part];
    StreamGrows(Items(names[..i], read, sha), part);
  }

  lemma {:induction false} StreamGrows(items: seq<Item>, last: Item)
    ensures Stream(items + [last]) == Stream(items) + Utf8.Encode(last.name) + [0] + last.digest
  {
    hide Utf8.Encode;
    if |items| == 0 {
      assert items + [last] == [last];
      assert [last][1..] == [];
    } else {
      StreamGrows(items[1..], last);
      assert (items + [last])[1..] == items[1..] + [last];
      assert (items + [last])[0] == items[0];
    }
  }

  /** No two different inputs that were actually hashed share a digest. */
  ghost predicate NoCollision(sha: Bytes -> Bytes, x: Bytes, y: Bytes) {
    sha(x) == sha(y) ==> x == y
  }

  /** Equal aggregate digests mean the same file names and, file by file, the same bytes. */
  lemma AggregateIdentifies(
    names: seq<string>, read: string -> Bytes, names': seq<string>, read': string -> Bytes, sha: Bytes -> Bytes)
    requires forall x :: |sha(x)| == 32
    requires forall n :: n in names || n in names' ==> '\0' !in n
    requires NoCollision(sha, Stream(Items(names, read, sha)), Stream(Items(names', read', sha)))
    requires forall n :: n in names && n in names' ==> NoCollision(sha, read(n), read'(n))
    requires Aggregate(names, read, sha) == Aggregate(names', read', sha)
    ensures names == names' && forall n :: n in names ==> read(n) == read'(n)
  {
    var a, b := Items(names, read, sha), Items(names', read', sha);
    StreamInjective(a, b);
    forall i | 0 <= i < |names| ensures |names'| == |names| && names[i] == names'[i] && read(names[i]) == read'(names[i]) {
      assert a[i] == b[i] && names[i] in names && names'[i] in names';
    }
  }

  /** The fingerprint's fields, each closed by a NUL. */
  function Fields(values: seq<string>): Bytes {
    if |values| == 0 then [] else Utf8.Encode(values[0]) + [0] + Fields(values[1..])
  }

  /** Field lists without NUL characters are told apart by their bytes. */
  lemma {:induction false} FieldsInjective(a: seq<string>, b: seq<string>)
    requires forall v :: v in a || v in b ==> '\0' !in v
    requires Fields(a) == Fields(b)
    ensures a == b
  {
    if |a| > 0 && |b| > 0 {
      assert a[0] in a && b[0] in b;
      Utf8.NoZero(a[0]);
      Utf8.NoZero(b[0]);
      SplitAtZero(Utf8.Encode(a[0]), Fields(a[1..]), Utf8.Encode(b[0]), Fields(b[1..]));
      Utf8.EncodeInjective(a[0], b[0]);
      FieldsInjective(a[1..], b[1..]);
      assert a == [a[0]] + a[1..] && b == [b[0]] + b[1..];
    }
  }

  /** The condition is needed: a NUL inside a field can be read as the end of the field before it. */
  lemma NulBlursFields(x: string, y: string, z: string, rest: seq<string>)
    ensures Fields([x + "\0" + y, z] + rest) == Fields([x, y + "\0" + z] + rest)
  {
    hide *;
    Utf8.EncodeAround(x, y);
    Utf8.EncodeAround(y, z);
    FieldsCons(x + "\0" + y, [z] + rest);
    FieldsCons(z, rest);
    FieldsCons(x, [y + "\0" + z] + rest);
    FieldsCons(y + "\0" + z, rest);
    assert [x + "\0" + y, z] + rest == [x + "\0" + y] + ([z] + rest);
    assert [x, y + "\0" + z] + rest == [x] + ([y + "\0" + z] + rest);
    var u, v, w, f := Utf8.Encode(x), Utf8.Encode(y), Utf8.Encode(z), Fields(rest);
    assert (u + [0] + v) + [0] + (w + [0] + f) == u + [0] + ((v + [0] + w) + [0] + f);
  }

  lemma FieldsCons(v: string, rest: seq<string>)
    ensures Fields([v] + rest) == Utf8.Encode(v) + [0] + Fields(rest)
  {
    hide Utf8.Encode;
    assert ([v] + rest)[1..] == rest;
  }
}
