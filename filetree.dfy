/**
 * The output directory tree as a value, and the three filesystem calls the
 * generator makes (os.mkdir, open(...).write, os.symlink) with the failures
 * they raise.
 */
module FileTree {

  /** A path as its components: "src/3/w" is ["src", "3", "w"]. */
  type Path = seq<string>

  datatype Node = Dir | File(content: string) | Link(target: string)

  type Tree = map<Path, Node>

  /** FileExistsError, IsADirectoryError, and the KeyError of a missing row. */
  datatype Error = FileExists(path: Path) | IsADirectory(path: Path) | KeyError(state: string)

  datatype Outcome = Done | Failed(error: Error)

  /** One call the generator makes, in the order it makes them. A link whose
      FileExistsError the caller catches has ignoreExisting set; Raise is an
      exception raised by the generator itself. */
  datatype Step =
    | MakeDir(path: Path)
    | WriteFile(path: Path, content: string)
    | MakeLink(target: string, path: Path, ignoreExisting: bool)
    | Raise(error: Error)

  /** The effect of one call. A call that fails changes nothing. */
  function Apply(t: Tree, s: Step): (r: (Tree, Outcome))
    ensures r.1.Failed? ==> r.0 == t
    ensures r.1.Done? && !s.Raise? ==> r.0.Keys == t.Keys + {s.path}
    ensures r.1.Done? && !s.Raise? ==> forall p :: p in t && p != s.path ==> r.0[p] == t[p]
  {
    match s
    case MakeDir(p) =>
      if p in t then (t, Failed(FileExists(p))) else (t[p := Dir], Done)
    case WriteFile(p, content) =>
      if p in t && t[p].Dir? then (t, Failed(IsADirectory(p))) else (t[p := File(content)], Done)
    case MakeLink(target, p, ignoreExisting) =>
      if p in t then (t, if ignoreExisting then Done else Failed(FileExists(p)))
      else (t[p := Link(target)], Done)
    case Raise(e) => (t, Failed(e))
  }

  /** Running calls in order; the first failure stops the run, leaving the
      tree as the calls before it made it. */
  function Run(t: Tree, steps: seq<Step>): (r: (Tree, Outcome))
    decreases |steps|
  {
    if steps == [] then (t, Done)
    else
      var (t1, o) := Apply(t, steps[0]);
      if o.Failed? then (t1, o) else Run(t1, steps[1..])
  }

  /** Running a + b is running a, then b on the resulting tree unless a failed. */
  lemma {:induction false} RunAppend(t: Tree, a: seq<Step>, b: seq<Step>)
    ensures Run(t, a + b) == if Run(t, a).1.Failed? then Run(t, a) else Run(Run(t, a).0, b)
    decreases |a|
  {
    if a == [] {
      assert a + b == b;
    } else {
      assert (a + b)[0] == a[0];
      assert (a + b)[1..] == a[1..] + b;
      var (t1, o) := Apply(t, a[0]);
      if o.Done? {
        RunAppend(t1, a[1..], b);
      }
    }
  }

  /** One more call at the end of a run. */
  lemma RunSnoc(t: Tree, a: seq<Step>, s: Step)
    ensures Run(t, a + [s]) == if Run(t, a).1.Failed? then Run(t, a) else Apply(Run(t, a).0, s)
  {
    RunAppend(t, a, [s]);
    var r := Run(t, a);
    if r.1.Done? {
      assert [s][1..] == [];
    }
  }

  /** A run that fails on a prefix of the calls fails the same way on all of them. */
  lemma RunPrefixFailed(t: Tree, pre: seq<Step>, all: seq<Step>)
    requires pre <= all && Run(t, pre).1.Failed?
    ensures Run(t, all) == Run(t, pre)
  {
    assert all == pre + all[|pre|..];
    RunAppend(t, pre, all[|pre|..]);
  }

  /** No call of steps writes the path p. */
  predicate Untouched(steps: seq<Step>, p: Path) {
    forall k :: 0 <= k < |steps| ==> steps[k].Raise? || steps[k].path != p
  }

  /** Calls that do not write p leave it as it was. */
  lemma {:induction false} RunUntouched(t: Tree, steps: seq<Step>, p: Path)
    requires Untouched(steps, p)
    ensures p in Run(t, steps).0 <==> p in t
    ensures p in t ==> Run(t, steps).0[p] == t[p]
    decreases |steps|
  {
    if steps != [] {
      var (t1, o) := Apply(t, steps[0]);
      if o.Done? {
        assert Untouched(steps[1..], p) by {
          forall k | 0 <= k < |steps| - 1 ensures steps[1..][k].Raise? || steps[1..][k].path != p {
            assert steps[1..][k] == steps[k + 1];
          }
        }
        RunUntouched(t1, steps[1..], p);
      }
    }
  }

  lemma UntouchedAppend(a: seq<Step>, b: seq<Step>, p: Path)
    requires Untouched(a, p) && Untouched(b, p)
    ensures Untouched(a + b, p)
  {
    forall k | 0 <= k < |a + b| ensures (a + b)[k].Raise? || (a + b)[k].path != p {
      if k >= |a| {
        assert (a + b)[k] == b[k - |a|];
      }
    }
  }

  predicate AllLinks(steps: seq<Step>) {
    forall k :: 0 <= k < |steps| ==> steps[k].MakeLink?
  }

  predicate DistinctPaths(steps: seq<Step>)
    requires AllLinks(steps)
  {
    forall i, j :: 0 <= i < j < |steps| ==> steps[i].path != steps[j].path
  }

  /** The rest of a run of distinct symlink calls is itself one. */
  lemma LinksTail(steps: seq<Step>)
    requires |steps| > 0 && AllLinks(steps) && DistinctPaths(steps)
    ensures AllLinks(steps[1..]) && DistinctPaths(steps[1..])
    ensures forall k :: 0 <= k < |steps| - 1 ==> steps[1..][k] == steps[k + 1]
    ensures forall k :: 0 <= k < |steps| - 1 ==> steps[1..][k].path != steps[0].path
  {
    var rest := steps[1..];
    forall i, j | 0 <= i < j < |rest| ensures rest[i].path != rest[j].path {
      assert rest[i] == steps[i + 1] && rest[j] == steps[j + 1];
    }
    forall k | 0 <= k < |rest| ensures rest[k].path != steps[0].path {
      assert rest[k] == steps[k + 1];
    }
  }

  /** Symlink calls on distinct names: the run succeeds exactly when no strict
      call meets an existing name; then each name is either kept as it was
      (a caught FileExistsError) or is the new link. */
  lemma {:induction false} RunLinks(t: Tree, steps: seq<Step>)
    requires AllLinks(steps) && DistinctPaths(steps)
    ensures Run(t, steps).1.Done? <==>
            forall k :: 0 <= k < |steps| && !steps[k].ignoreExisting ==> steps[k].path !in t
    ensures Run(t, steps).1.Done? ==>
            forall k :: 0 <= k < |steps| ==>
              steps[k].path in Run(t, steps).0 &&
              Run(t, steps).0[steps[k].path] ==
                if steps[k].path in t then t[steps[k].path] else Link(steps[k].target)
    decreases |steps|
  {
    if steps != [] {
      var s := steps[0];
      var rest := steps[1..];
      var (t1, o) := Apply(t, s);
      LinksTail(steps);
      if o.Done? {
        RunLinks(t1, rest);
        var r := Run(t, steps).0;
        assert r == Run(t1, rest).0;
        forall k | 0 <= k < |steps|
          ensures Run(t, steps).1.Done? ==>
            steps[k].path in r &&
            r[steps[k].path] == if steps[k].path in t then t[steps[k].path] else Link(steps[k].target)
        {
          if k > 0 {
            assert steps[k] == rest[k - 1];
          } else if Run(t, steps).1.Done? {
            RunLinksFrame(t1, rest);
          }
        }
        if !Run(t, steps).1.Done? {
          var k :| 0 <= k < |rest| && !rest[k].ignoreExisting && rest[k].path in t1;
          assert steps[k + 1] == rest[k];
        }
      } else {
        assert !s.ignoreExisting && s.path in t;
      }
    }
  }

  /** Symlink calls on distinct names leave every other name as it was. */
  lemma {:induction false} RunLinksFrame(t: Tree, steps: seq<Step>)
    requires AllLinks(steps) && DistinctPaths(steps)
    ensures forall p :: p in t && (forall k :: 0 <= k < |steps| ==> steps[k].path != p) ==>
              p in Run(t, steps).0 && Run(t, steps).0[p] == t[p]
    ensures forall p :: p in Run(t, steps).0 && (forall k :: 0 <= k < |steps| ==> steps[k].path != p) ==>
              p in t
    decreases |steps|
  {
    if steps != [] {
      var rest := steps[1..];
      var (t1, o) := Apply(t, steps[0]);
      LinksTail(steps);
      if o.Done? {
        RunLinksFrame(t1, rest);
        var r := Run(t, steps).0;
        forall p | p in t && (forall k :: 0 <= k < |steps| ==> steps[k].path != p)
          ensures p in r && r[p] == t[p]
        {
          assert p != steps[0].path;
          forall k | 0 <= k < |rest| ensures rest[k].path != p {
            assert rest[k] == steps[k + 1];
          }
        }
        forall p | p in r && (forall k :: 0 <= k < |steps| ==> steps[k].path != p)
          ensures p in t
        {
          forall k | 0 <= k < |rest| ensures rest[k].path != p {
            assert rest[k] == steps[k + 1];
          }
          assert p != steps[0].path;
        }
      }
    }
  }

  /** The filesystem the generator writes to: a tree it changes call by call. */
  class FileSystem {
    var tree: Tree

    constructor (initial: Tree)
      ensures tree == initial
    {
      tree := initial;
    }

    /** os.mkdir: FileExistsError when the path exists. */
    method Mkdir(path: Path) returns (o: Outcome)
      modifies this
      ensures (tree, o) == Apply(old(tree), MakeDir(path))
    {
      if path in tree {
        o := Failed(FileExists(path));
      } else {
        tree := tree[path := Dir];
        o := Done;
      }
    }

    /** open(path, 'w').write(content): IsADirectoryError on a directory,
        otherwise the file is created or truncated and holds content. */
    method Write(path: Path, content: string) returns (o: Outcome)
      modifies this
      ensures (tree, o) == Apply(old(tree), WriteFile(path, content))
    {
      if path in tree && tree[path].Dir? {
        o := Failed(IsADirectory(path));
      } else {
        tree := tree[path := File(content)];
        o := Done;
      }
    }

    /** os.symlink(target, path): FileExistsError when the name exists. */
    method Symlink(target: string, path: Path) returns (o: Outcome)
      modifies this
      ensures (tree, o) == Apply(old(tree), MakeLink(target, path, false))
    {
      if path in tree {
        o := Failed(FileExists(path));
      } else {
        tree := tree[path := Link(target)];
        o := Done;
      }
    }
  }
}
