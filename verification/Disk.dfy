/** A disk of named directories on which every operation may fail, and which
    remembers every state it went through. */
module Disk {
  import opened Options

  /** A directory's files, by relative path. */
  type Tree = map<string, string>
  type FS = map<string, Tree>

  /** How one RemoveAll goes: the partly emptied states it passes through, and
      what is left when it gives up (None when it finishes). */
  datatype Removal = Removal(midway: seq<set<string>>, left: Option<set<string>>)

  function Partial(fs: FS, path: string, keep: set<string>): FS
  {
    if path in fs then fs[path := map f | f in fs[path] && f in keep :: fs[path][f]] else fs
  }

  function AfterRemoval(fs: FS, path: string, r: Removal): FS
  {
    if r.left.Some? then Partial(fs, path, r.left.value) else fs - {path}
  }

  function RemovalTrace(fs: FS, path: string, r: Removal): (trace: seq<FS>)
    ensures |trace| == |r.midway| + 1
    ensures forall i :: 0 <= i < |r.midway| ==> trace[i] == Partial(fs, path, r.midway[i])
    ensures trace[|r.midway|] == AfterRemoval(fs, path, r)
  {
    seq(|r.midway|, i requires 0 <= i < |r.midway| => Partial(fs, path, r.midway[i])) + [AfterRemoval(fs, path, r)]
  }

  /** rename(2) on directories: fails on demand, without a source, or onto a
      directory that is not empty. */
  function Rename(fs: FS, from: string, to: string, ok: bool): Option<FS>
  {
    if !ok || from !in fs || (to in fs && fs[to] != map[]) then None
    else Some((fs - {from})[to := fs[from]])
  }

  class Drive {
    var dirs: FS
    ghost var history: seq<FS>

    ghost predicate Valid()
      reads this
    {
      history != [] && history[|history| - 1] == dirs
    }

    constructor (dirs: FS)
      ensures Valid() && this.dirs == dirs && history == [dirs]
    {
      this.dirs := dirs;
      history := [dirs];
    }

    method Move(from: string, to: string, ok: bool) returns (done: bool)
      requires Valid()
      modifies this
      ensures Valid()
      ensures done <==> Rename(old(dirs), from, to, ok).Some?
      ensures done ==> Rename(old(dirs), from, to, ok) == Some(dirs) && history == old(history) + [dirs]
      ensures !done ==> dirs == old(dirs) && history == old(history)
    {
      if !ok || from !in dirs || (to in dirs && dirs[to] != map[]) {
        return false;
      }
      dirs := (dirs - {from})[to := dirs[from]];
      history := history + [dirs];
      done := true;
    }

    method RemoveAll(path: string, r: Removal) returns (done: bool)
      requires Valid()
      modifies this
      ensures Valid()
      ensures done == r.left.None? && dirs == AfterRemoval(old(dirs), path, r)
      ensures history == old(history) + RemovalTrace(old(dirs), path, r)
    {
      ghost var start := dirs;
      for i := 0 to |r.midway|
        invariant Valid() || i > 0
        invariant history == old(history) + RemovalTrace(start, path, r)[..i]
      {
        ghost var state := Partial(start, path, r.midway[i]);
        history := history + [state];
      }
      dirs := if r.left.Some? then Partial(dirs, path, r.left.value) else dirs - {path};
      history := history + [dirs];
      done := r.left.None?;
    }

    /** Writing a directory in stages: every stage shows in the history. */
    method Write(path: string, stages: seq<Tree>)
      requires Valid()
      modifies this
      ensures Valid()
      ensures history == old(history) + WriteTrace(old(dirs), path, stages)
      ensures dirs == if stages == [] then old(dirs) else old(dirs)[path := stages[|stages| - 1]]
    {
      for i := 0 to |stages|
        invariant Valid()
        invariant history == old(history) + WriteTrace(old(dirs), path, stages)[..i]
        invariant dirs == if i == 0 then old(dirs) else old(dirs)[path := stages[i - 1]]
      {
        assert dirs[path := stages[i]] == old(dirs)[path := stages[i]];
        dirs := dirs[path := stages[i]];
        history := history + [dirs];
      }
    }
  }

  function WriteTrace(fs: FS, path: string, stages: seq<Tree>): (trace: seq<FS>)
    ensures |trace| == |stages|
    ensures forall i :: 0 <= i < |trace| ==> trace[i] == fs[path := stages[i]]
  {
    seq(|stages|, i requires 0 <= i < |stages| => fs[path := stages[i]])
  }
}
