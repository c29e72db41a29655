/** The shared libraries a program needs, directly and through each other. */
module DynamicLibraries {
  import opened Basics

  /** The file system and the search paths as the collection finds them. */
  datatype Env = Env(
    needed: string -> seq<string>,
    rpath: string -> seq<string>,
    libraryPath: seq<string>,
    defaults: seq<string>,
    canonical: string -> string,
    valid: string -> bool,
    files: set<string>)

  predicate IsAbsolute(name: string) {
    name != "" && name[0] == '/'
  }

  function Candidate(dir: string, name: string): string {
    if IsAbsolute(name) then name
    else if dir != "" && dir[|dir| - 1] != '/' then dir + "/" + name
    else dir + name
  }

  /** The first directory in which the name is a file of the right kind. */
  function Find(env: Env, dirs: seq<string>, name: string): Option<string> {
    if dirs == [] then None
    else
      var path := env.canonical(Candidate(dirs[0], name));
      if env.valid(path) then Some(path) else Find(env, dirs[1..], name)
  }

  /** A name that begins with a slash stands for itself; another goes behind the directory and one slash. */
  lemma CandidateIs(dir: string, name: string)
    ensures Candidate(dir, "/" + name) == "/" + name
    ensures name == "" || name[0] != '/' ==>
      Candidate(dir + "/", name) == dir + "/" + name && Candidate("", name) == name
    ensures (name == "" || name[0] != '/') && dir != "" && dir[|dir| - 1] != '/' ==>
      Candidate(dir, name) == dir + "/" + name
  {
    assert ("/" + name)[0] == '/' && (dir + "/")[|dir|] == '/';
    assert "" + name == name;
  }

  ghost predicate Has(env: Env, dir: string, name: string) {
    env.valid(env.canonical(Candidate(dir, name)))
  }

  /** The first directory that has the name decides. */
  lemma {:induction false} FindIsFirst(env: Env, dirs: seq<string>, name: string, k: nat)
    requires k < |dirs| && Has(env, dirs[k], name) && forall i :: 0 <= i < k ==> !Has(env, dirs[i], name)
    ensures Find(env, dirs, name) == Some(env.canonical(Candidate(dirs[k], name)))
    decreases k
  {
    if k > 0 {
      assert !Has(env, dirs[0], name);
      assert forall i :: 0 <= i < k - 1 ==> dirs[1..][i] == dirs[i + 1];
      FindIsFirst(env, dirs[1..], name, k - 1);
    }
  }

  /** Nothing is found exactly if no directory has the name. */
  lemma {:induction false} NotFoundIff(env: Env, dirs: seq<string>, name: string)
    ensures Find(env, dirs, name) == None <==> forall i :: 0 <= i < |dirs| ==> !Has(env, dirs[i], name)
    decreases |dirs|
  {
    if dirs != [] {
      var rest := dirs[1..];
      assert forall i :: 0 <= i < |rest| ==> rest[i] == dirs[i + 1];
      assert forall i :: 0 < i < |dirs| ==> dirs[i] == rest[i - 1];
      NotFoundIff(env, rest, name);
    }
  }

  /** Where a library needed by a file is looked for. */
  function Search(env: Env, file: string): seq<string> {
    env.rpath(file) + env.libraryPath + env.defaults
  }

  ghost predicate Edge(env: Env, file: string, lib: string) {
    exists i :: 0 <= i < |env.needed(file)| && Find(env, Search(env, file), env.needed(file)[i]) == Some(lib)
  }

  ghost predicate ReachableIn(env: Env, file: string, lib: string, steps: nat)
    decreases steps
  {
    if steps == 0 then Edge(env, file, lib)
    else exists mid :: Edge(env, file, mid) && ReachableIn(env, mid, lib, steps - 1)
  }

  ghost predicate Reachable(env: Env, file: string, lib: string) {
    exists steps: nat :: ReachableIn(env, file, lib, steps)
  }

  /** There are finitely many files, a canonical path is its own, and it is absolute. */
  ghost predicate Sane(env: Env) {
    && (forall p :: env.valid(p) ==> p in env.files)
    && (forall p :: env.valid(env.canonical(p)) ==>
          IsAbsolute(env.canonical(p)) && env.canonical(env.canonical(p)) == env.canonical(p))
    && env.defaults != []
  }

  lemma {:induction false} FindSplits(env: Env, a: seq<string>, b: seq<string>, name: string)
    ensures Find(env, a + b, name) == if Find(env, a, name).Some? then Find(env, a, name) else Find(env, b, name)
    decreases |a|
  {
    if a == [] {
      assert a + b == b;
    } else {
      assert (a + b)[1..] == a[1..] + b;
      FindSplits(env, a[1..], b, name);
    }
  }

  /** The run path of the file comes first, then the library path, then the default directories. */
  lemma SearchOrder(env: Env, file: string, name: string)
    ensures var r, l, d := Find(env, env.rpath(file), name), Find(env, env.libraryPath, name),
      Find(env, env.defaults, name);
      Find(env, Search(env, file), name) == if r.Some? then r else if l.Some? then l else d
  {
    FindSplits(env, env.rpath(file) + env.libraryPath, env.defaults, name);
    FindSplits(env, env.rpath(file), env.libraryPath, name);
  }

  lemma {:induction false} FoundIsCanonical(env: Env, dirs: seq<string>, name: string)
    requires Sane(env) && Find(env, dirs, name).Some?
    ensures var p := Find(env, dirs, name).value;
      env.valid(p) && p in env.files && IsAbsolute(p) && env.canonical(p) == p
    decreases |dirs|
  {
    if !env.valid(env.canonical(Candidate(dirs[0], name))) {
      FoundIsCanonical(env, dirs[1..], name);
    }
  }

  /** A library already listed, needed by that path, is found under it. */
  lemma ListedIsFound(env: Env, dirs: seq<string>, name: string)
    requires dirs != [] && env.valid(name) && IsAbsolute(name) && env.canonical(name) == name
    ensures Find(env, dirs, name) == Some(name)
  {
  }

  // ----- what collecting adds -----

  ghost predicate Closed(env: Env, file: string, libs: set<string>) {
    forall lib :: Edge(env, file, lib) ==> lib in libs
  }

  ghost predicate Listed(env: Env, libs: set<string>) {
    forall p :: p in libs ==> p in env.files && env.valid(p) && IsAbsolute(p) && env.canonical(p) == p
  }

  /** What was added is reachable from the file, and everything it needs is there too. */
  ghost predicate Grown(env: Env, file: string, before: set<string>, after: set<string>) {
    && before <= after
    && forall p :: p in after && p !in before ==> Closed(env, p, after) && Reachable(env, file, p)
  }

  lemma GrownTwice(env: Env, file: string, a: set<string>, b: set<string>, c: set<string>)
    requires Grown(env, file, a, b) && Grown(env, file, b, c)
    ensures Grown(env, file, a, c)
  {
  }

  lemma EdgeReaches(env: Env, file: string, lib: string)
    requires Edge(env, file, lib)
    ensures Reachable(env, file, lib)
  {
    assert ReachableIn(env, file, lib, 0);
  }

  lemma ReachThrough(env: Env, file: string, mid: string, lib: string)
    requires Edge(env, file, mid) && Reachable(env, mid, lib)
    ensures Reachable(env, file, lib)
  {
    var k: nat :| ReachableIn(env, mid, lib, k);
    assert ReachableIn(env, file, lib, k + 1);
  }

  /** A new library and all that collecting for it has added. */
  lemma GrownThrough(env: Env, file: string, lib: string, before: set<string>, after: set<string>)
    requires Edge(env, file, lib) && Grown(env, lib, before + {lib}, after) && Closed(env, lib, after)
    ensures Grown(env, file, before, after)
  {
    forall p | p in after && p !in before ensures Closed(env, p, after) && Reachable(env, file, p) {
      if p == lib {
        EdgeReaches(env, file, lib);
      } else {
        ReachThrough(env, file, lib, p);
      }
    }
  }

  lemma {:induction false} ClosedHasAll(env: Env, file: string, libs: set<string>, lib: string, steps: nat)
    requires Closed(env, file, libs) && (forall p :: p in libs ==> Closed(env, p, libs))
    requires ReachableIn(env, file, lib, steps)
    ensures lib in libs
    decreases steps
  {
    if steps > 0 {
      var mid :| Edge(env, file, mid) && ReachableIn(env, mid, lib, steps - 1);
      ClosedHasAll(env, mid, libs, lib, steps - 1);
    }
  }

  /** Starting from nothing, what is collected is exactly what is reachable. */
  lemma CollectedIff(env: Env, file: string, libs: set<string>)
    requires Grown(env, file, {}, libs) && Closed(env, file, libs)
    ensures forall lib :: lib in libs <==> Reachable(env, file, lib)
  {
    forall lib | Reachable(env, file, lib) ensures lib in libs {
      var k: nat :| ReachableIn(env, file, lib, k);
      ClosedHasAll(env, file, libs, lib, k);
    }
  }

  /** If the name can be found from the file, what is found is listed. */
  ghost predicate Settled(env: Env, file: string, name: string, libs: set<string>) {
    var found := Find(env, Search(env, file), name);
    found.Some? ==> found.value in libs
  }

  /** Each name needed is settled or still on the list. */
  ghost predicate Progress(env: Env, file: string, names: seq<string>, left: seq<string>, libs: set<string>) {
    && (forall i :: 0 <= i < |names| ==> names[i] in left || Settled(env, file, names[i], libs))
    && (forall i :: 0 <= i < |left| ==> left[i] in names)
  }

  lemma ProgressTwice(env: Env, file: string, a: seq<string>, b: seq<string>, c: seq<string>, l: set<string>,
                      m: set<string>)
    requires Progress(env, file, a, b, l) && Progress(env, file, b, c, m) && l <= m
    ensures Progress(env, file, a, c, m)
  {
  }

  ghost predicate NotIn(env: Env, dirs: seq<string>, names: seq<string>) {
    forall i :: 0 <= i < |names| ==> Find(env, dirs, names[i]) == None
  }

  lemma DoneIsClosed(env: Env, file: string, left: seq<string>, libs: set<string>)
    requires Progress(env, file, env.needed(file), left, libs) && NotIn(env, Search(env, file), left)
    ensures Closed(env, file, libs)
  {
  }

  // ----- the collection -----

  class DynLibList {
    const env: Env
    var libs: set<string>

    constructor (env: Env)
      ensures this.env == env && libs == {}
    {
      this.env := env;
      libs := {};
    }

    /** The list of a program is exactly the libraries reachable from it, cycles or not. */
    method Build(file: string)
      requires Sane(env) && libs == {}
      modifies this
      ensures forall lib :: lib in libs <==> Reachable(env, file, lib)
    {
      CollectNeeded(file);
      CollectedIff(env, file, libs);
    }

    method CollectNeeded(file: string)
      requires Sane(env) && Listed(env, libs)
      modifies this
      ensures Listed(env, libs) && Grown(env, file, old(libs), libs) && Closed(env, file, libs)
      decreases env.files - libs, 3
    {
      ghost var l0 := libs;
      var rpath := env.rpath(file);
      var left := SomeNeeded(file, [], rpath, env.libraryPath + env.defaults, env.needed(file));
      assert [] + rpath == rpath;
      ghost var l1, left1 := libs, left;
      left := SomeNeeded(file, rpath, env.libraryPath, env.defaults, left);
      ProgressTwice(env, file, env.needed(file), left1, left, l1, libs);
      GrownTwice(env, file, l0, l1, libs);
      ghost var l2, left2 := libs, left;
      left := SomeNeeded(file, rpath + env.libraryPath, env.defaults, [], left);
      ProgressTwice(env, file, env.needed(file), left2, left, l2, libs);
      GrownTwice(env, file, l0, l2, libs);
      DoneIsClosed(env, file, left, libs);
    }

    /** One pass over the names that are left, through one part of the search path. */
    method SomeNeeded(file: string, ghost before: seq<string>, dirs: seq<string>, ghost after: seq<string>,
                      names: seq<string>)
      returns (left: seq<string>)
      requires Sane(env) && Listed(env, libs) && Search(env, file) == before + dirs + after
      requires NotIn(env, before, names) && forall i :: 0 <= i < |names| ==> names[i] in env.needed(file)
      modifies this
      ensures Listed(env, libs) && Grown(env, file, old(libs), libs)
      ensures Progress(env, file, names, left, libs) && NotIn(env, before + dirs, left)
      decreases env.files - libs, 2
    {
      if dirs == [] {
        assert before + dirs == before;
        return names;
      }
      left := [];
      var i := 0;
      while i < |names|
        invariant 0 <= i <= |names| && Listed(env, libs) && Grown(env, file, old(libs), libs)
        invariant Progress(env, file, names[..i], left, libs) && NotIn(env, before + dirs, left)
        decreases |names| - i
      {
        ghost var l := libs;
        var done := names[i] in libs;
        if done {
          ListedIsFound(env, Search(env, file), names[i]);
        } else {
          done := TryPaths(file, before, dirs, after, names[i]);
          FindSplits(env, before, dirs, names[i]);
          FindSplits(env, before + dirs, after, names[i]);
          GrownTwice(env, file, old(libs), l, libs);
        }
        ghost var was := left;
        if !done {
          left := left + [names[i]];
        }
        OneMoreName(env, file, names, i, was, left, l, libs);
        i := i + 1;
      }
      assert names[..i] == names;
    }

    /** The first directory that has the library decides; a new library is followed at once. */
    method TryPaths(file: string, ghost before: seq<string>, dirs: seq<string>, ghost after: seq<string>, name: string)
      returns (found: bool)
      requires Sane(env) && Listed(env, libs) && Search(env, file) == before + dirs + after
      requires name in env.needed(file) && Find(env, before, name) == None
      modifies this
      ensures Listed(env, libs) && Grown(env, file, old(libs), libs)
      ensures found == Find(env, dirs, name).Some?
      ensures found ==> Find(env, dirs, name).value in libs
      decreases env.files - libs, 1
    {
      var i := 0;
      while i < |dirs|
        invariant 0 <= i <= |dirs| && libs == old(libs)
        invariant Find(env, dirs, name) == Find(env, dirs[i..], name)
      {
        assert dirs[i..][0] == dirs[i] && dirs[i..][1..] == dirs[i + 1..];
        var path := env.canonical(Candidate(dirs[i], name));
        if env.valid(path) {
          FoundIsCanonical(env, dirs, name);
          if path !in libs {
            FoundIsEdge(env, file, before, dirs, after, name);
            libs := libs + {path};
            CollectNeeded(path);
            GrownThrough(env, file, path, old(libs), libs);
          }
          return true;
        }
        i := i + 1;
      }
      return false;
    }
  }

  lemma FoundIsEdge(env: Env, file: string, before: seq<string>, dirs: seq<string>, after: seq<string>, name: string)
    requires Search(env, file) == before + dirs + after && name in env.needed(file)
    requires Find(env, before, name) == None && Find(env, dirs, name).Some?
    ensures Edge(env, file, Find(env, dirs, name).value)
  {
    FindSplits(env, before, dirs, name);
    FindSplits(env, before + dirs, after, name);
    var i :| 0 <= i < |env.needed(file)| && env.needed(file)[i] == name;
    assert Find(env, Search(env, file), env.needed(file)[i]) == Find(env, dirs, name);
  }

  lemma OneMoreName(env: Env, file: string, names: seq<string>, i: nat, was: seq<string>, left: seq<string>,
                    l: set<string>, m: set<string>)
    requires i < |names| && l <= m && Progress(env, file, names[..i], was, l)
    requires left == was + [names[i]] || (left == was && Settled(env, file, names[i], m))
    ensures Progress(env, file, names[..i + 1], left, m)
  {
  }
}
