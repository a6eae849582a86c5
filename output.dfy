/**
 * The tree create_dirs leaves: what each path holds once the run succeeds,
 * and when a run on an empty tree succeeds.
 */
module Output {
  import opened Terminal
  import opened Machine
  import opened FileTree
  import opened Layout

  // ---------------------------------------------------------------------------
  // Which paths the calls for one action may write

  predicate StartsWithEsc(name: string) {
    |name| > 0 && name[0] == ESC
  }

  /** A path a link of the directory dir is made at: a check name inside dir,
      or a check name at the top of the tree. */
  predicate LinkPath(q: Path, dir: string) {
    || (|q| == 2 && q[0] == Root && StartsWithEsc(q[1]))
    || (|q| == 3 && q[0] == Root && q[1] == dir && StartsWithEsc(q[2]))
  }

  /** A path inside the directory dir. */
  predicate InDir(q: Path, dir: string) {
    |q| == 3 && q[0] == Root && q[1] == dir
  }

  /** Every path the steps write is a link path of dir. */
  predicate LinksWithin(steps: seq<Step>, dir: string) {
    forall k :: 0 <= k < |steps| && !steps[k].Raise? ==> LinkPath(steps[k].path, dir)
  }

  lemma LinksWithinAppend(a: seq<Step>, b: seq<Step>, dir: string)
    requires LinksWithin(a, dir) && LinksWithin(b, dir)
    ensures LinksWithin(a + b, dir)
  {
    forall k | 0 <= k < |a + b| && !(a + b)[k].Raise? ensures LinkPath((a + b)[k].path, dir) {
      if k >= |a| {
        assert (a + b)[k] == b[k - |a|];
      }
    }
  }

  /** Calls confined to the link paths of dir leave every other path alone. */
  lemma LinksWithinUntouched(steps: seq<Step>, dir: string, q: Path)
    requires LinksWithin(steps, dir) && !LinkPath(q, dir)
    ensures Untouched(steps, q)
  {
  }

  /** Both check names of a pair begin with ESC, as every checksum reply does. */
  lemma CheckNamesStart(p: Pair)
    ensures StartsWithEsc(CheckNames(p)[0]) && StartsWithEsc(CheckNames(p)[1])
  {
    var a, b := Reply(p.0, 1), Reply(p.1, 2);
    assert (a + b)[0] == a[0];
    assert (b + a)[0] == b[0];
  }

  lemma {:induction false} NameListCallsWithin(checknames: seq<string>, target: string, dir: string, isInitial: bool)
    requires forall j :: 0 <= j < |checknames| ==> StartsWithEsc(checknames[j])
    ensures LinksWithin(NameListCalls(checknames, target, dir, isInitial), dir)
    decreases |checknames|
  {
    if checknames != [] {
      var front := checknames[..|checknames| - 1];
      NameListCallsWithin(front, target, dir, isInitial);
      LinksWithinAppend(NameListCalls(front, target, dir, isInitial),
                        NameCalls(checknames[|checknames| - 1], target, dir, isInitial), dir);
    }
  }

  lemma {:induction false} LinkingCallsWithin(ls: seq<Linking>, dir: string, isInitial: bool)
    requires forall k, j :: 0 <= k < |ls| && 0 <= j < |ls[k].checknames| ==> StartsWithEsc(ls[k].checknames[j])
    ensures LinksWithin(LinkingCalls(ls, dir, isInitial), dir)
    decreases |ls|
  {
    if ls != [] {
      var front := ls[..|ls| - 1];
      var last := ls[|ls| - 1];
      LinkingCallsWithin(front, dir, isInitial);
      NameListCallsWithin(last.checknames, last.target, dir, isInitial);
      LinksWithinAppend(LinkingCalls(front, dir, isInitial),
                        NameListCalls(last.checknames, last.target, dir, isInitial), dir);
    }
  }

  /** create_symlinks(state, dir) writes only check names inside dir or at
      the top of the tree. */
  lemma SymlinkCallsWithin(c: Compiled, state: string, dir: string)
    requires Named(c)
    ensures LinksWithin(SymlinkCalls(c, state, dir), dir)
  {
    if state !in c.finals && state in c.table {
      var row := c.table[state];
      var ls := RowLinkings(row, c.names);
      forall k, j | 0 <= k < |ls| && 0 <= j < |ls[k].checknames| ensures StartsWithEsc(ls[k].checknames[j]) {
        RowLinkingsAt(row, c.names, k);
        CheckNamesStart(row[k].0);
      }
      LinkingCallsWithin(ls, dir, state == c.initial);
    }
  }

  /** The file w of a directory is never a link path. */
  lemma ProgramNotLink(dir: string, dir2: string)
    ensures !LinkPath([Root, dir, "w"], dir2)
  {
    assert [Root, dir, "w"][2] == "w";
  }

  /** The calls for one action's directory: its links, then its file w. */
  lemma ActionCallsUntouched(c: Compiled, a: Action, q: Path)
    requires Named(c) && a in c.names
    requires !LinkPath(q, c.names[a]) && q != [Root, c.names[a], "w"]
    ensures Untouched(ActionCalls(c, a), q)
  {
    var links := SymlinkCalls(c, a.next, c.names[a]);
    SymlinkCallsWithin(c, a.next, c.names[a]);
    LinksWithinUntouched(links, c.names[a], q);
    UntouchedAppend(links, [WriteFile([Root, c.names[a], "w"], Tapewriter(c.finals, a))], q);
  }

  /** The second pass leaves alone every path none of its actions may write. */
  lemma {:induction false} FillCallsUntouched(c: Compiled, keys: seq<Action>, q: Path)
    requires Named(c) && forall b :: b in keys ==> b in c.names
    requires forall b :: b in keys ==> !LinkPath(q, c.names[b]) && q != [Root, c.names[b], "w"]
    ensures Untouched(FillCalls(c, keys), q)
    decreases |keys|
  {
    if keys != [] {
      var front := keys[..|keys| - 1];
      var last := keys[|keys| - 1];
      assert forall b :: b in front ==> b in keys;
      FillCallsUntouched(c, front, q);
      ActionCallsUntouched(c, last, q);
      UntouchedAppend(FillCalls(c, front), ActionCalls(c, last), q);
    }
  }

  /** The first pass writes only the action directories. */
  lemma {:induction false} DirCallsUntouched(keys: seq<Action>, names: map<Action, string>, q: Path)
    requires forall b :: b in keys ==> b in names && q != [Root, names[b]]
    ensures Untouched(DirCalls(keys, names), q)
    decreases |keys|
  {
    if keys != [] {
      var front := keys[..|keys| - 1];
      assert forall b :: b in front ==> b in keys;
      DirCallsUntouched(front, names, q);
      UntouchedAppend(DirCalls(front, names), [MakeDir([Root, names[keys[|keys| - 1]]])], q);
    }
  }

  // ---------------------------------------------------------------------------
  // Names

  /** Distinct positions in the key order carry distinct names. */
  ghost predicate DistinctNames(keys: seq<Action>, names: map<Action, string>)
    requires forall a :: a in keys ==> a in names
  {
    forall i, j :: 0 <= i < j < |keys| ==> names[keys[i]] != names[keys[j]]
  }

  lemma CanonicalDistinctNames(keys: seq<Action>, names: map<Action, string>)
    requires Canonical(keys, names)
    ensures DistinctNames(keys, names)
  {
    forall i, j | 0 <= i < j < |keys| ensures names[keys[i]] != names[keys[j]] {
      LowerHexInjective(i, j);
    }
  }

  /** A name is a hex numeral: it begins with a hex digit. */
  lemma NameStart(keys: seq<Action>, names: map<Action, string>, a: Action)
    requires Canonical(keys, names) && a in names
    ensures |names[a]| > 0 && names[a][0] in LowerHexDigits
  {
    var i :| 0 <= i < |keys| && keys[i] == a;
    NumeralFirstDigit(i, LowerHexDigits);
  }

  /** ESC and the first letters of "init" and "postinit" are not hex digits,
      so no action name collides with a check name or those two files. */
  lemma NotHexDigits()
    ensures ESC !in LowerHexDigits && 'i' !in LowerHexDigits && 'p' !in LowerHexDigits
  {
  }

  // ---------------------------------------------------------------------------
  // The prologue and the first pass

  /** After the prologue succeeds, the root is a directory and init and
      postinit hold their programs. */
  lemma PrologueMade(t: Tree, prompt: string)
    requires Run(t, PrologueCalls(prompt)).1.Done?
    ensures var r := Run(t, PrologueCalls(prompt)).0;
            && [Root] in r && r[[Root]] == Dir
            && [Root, "init"] in r && r[[Root, "init"]] == File(InitFile(prompt))
            && [Root, "postinit"] in r && r[[Root, "postinit"]] == File(PostInitFile())
            && r.Keys == t.Keys + {[Root], [Root, "init"], [Root, "postinit"]}
  {
    var pre := PrologueCalls(prompt);
    assert pre == [pre[0]] + [pre[1]] + [pre[2]];
    RunSnoc(t, [pre[0]] + [pre[1]], pre[2]);
    RunSnoc(t, [pre[0]], pre[1]);
    assert [pre[0]][1..] == [];
    var t0 := Apply(t, pre[0]).0;
    var t1 := Apply(t0, pre[1]).0;
    assert [Root, "init"] != [Root, "postinit"];
    assert [Root] != [Root, "init"] && [Root] != [Root, "postinit"];
  }

  /** After the first pass succeeds, every named action's path is a directory. */
  lemma {:induction false} DirCallsMade(t: Tree, keys: seq<Action>, names: map<Action, string>, a: Action)
    requires (forall b :: b in keys ==> b in names) && a in keys
    requires Run(t, DirCalls(keys, names)).1.Done?
    ensures var r := Run(t, DirCalls(keys, names)).0;
            [Root, names[a]] in r && r[[Root, names[a]]] == Dir
    decreases |keys|
  {
    var front := keys[..|keys| - 1];
    var last := keys[|keys| - 1];
    assert keys == front + [last];
    RunSnoc(t, DirCalls(front, names), MakeDir([Root, names[last]]));
    if a != last {
      DirCallsMade(t, front, names, a);
    }
  }

  /** The first pass succeeds when none of the directories exists yet. */
  lemma {:induction false} DirCallsSucceed(t: Tree, keys: seq<Action>, names: map<Action, string>)
    requires (forall b :: b in keys ==> b in names) && DistinctNames(keys, names)
    requires forall b :: b in keys ==> [Root, names[b]] !in t
    ensures Run(t, DirCalls(keys, names)).1.Done?
    decreases |keys|
  {
    if keys != [] {
      var front := keys[..|keys| - 1];
      var last := keys[|keys| - 1];
      assert forall b :: b in front ==> b in keys;
      DirCallsSucceed(t, front, names);
      forall b | b in front ensures [Root, names[last]] != [Root, names[b]] {
        var i :| 0 <= i < |front| && front[i] == b;
        assert names[keys[i]] != names[keys[|keys| - 1]];
      }
      DirCallsUntouched(front, names, [Root, names[last]]);
      RunUntouched(t, DirCalls(front, names), [Root, names[last]]);
      RunSnoc(t, DirCalls(front, names), MakeDir([Root, names[last]]));
    }
  }

  // ---------------------------------------------------------------------------
  // The second pass

  /** An action other than the last one is in the front, under another name. */
  lemma FrontName(keys: seq<Action>, names: map<Action, string>, a: Action)
    requires (forall b :: b in keys ==> b in names) && DistinctNames(keys, names)
    requires a in keys && a != keys[|keys| - 1]
    ensures a in keys[..|keys| - 1] && names[a] != names[keys[|keys| - 1]]
  {
    var i :| 0 <= i < |keys| && keys[i] == a;
    assert keys[..|keys| - 1][i] == a;
    assert names[keys[i]] != names[keys[|keys| - 1]];
  }

  /** The calls for one action keep every path inside another action's directory. */
  lemma OtherActionKeeps(c: Compiled, t: Tree, b: Action, dir: string, q: Path)
    requires Named(c) && b in c.names && c.names[b] != dir && InDir(q, dir)
    ensures var r := Run(t, ActionCalls(c, b)).0;
            (q in r <==> q in t) && (q in t ==> r[q] == t[q])
  {
    ActionCallsUntouched(c, b, q);
    RunUntouched(t, ActionCalls(c, b), q);
  }

  /** Within the second pass, the calls for action a run on some tree ta, and
      whatever they leave in a's directory is still there at the end: the
      other actions write only in their own directories and at the top. */
  lemma {:induction false} FillCallsAt(c: Compiled, t: Tree, keys: seq<Action>, a: Action, q: Path)
    returns (ta: Tree)
    requires Named(c) && (forall b :: b in keys ==> b in c.names) && a in keys
    requires DistinctNames(keys, c.names) && InDir(q, c.names[a])
    requires Run(t, FillCalls(c, keys)).1.Done?
    ensures Run(ta, ActionCalls(c, a)).1.Done?
    ensures var r, ra := Run(t, FillCalls(c, keys)).0, Run(ta, ActionCalls(c, a)).0;
            q in ra ==> q in r && r[q] == ra[q]
    decreases |keys|
  {
    var front := keys[..|keys| - 1];
    var last := keys[|keys| - 1];
    RunAppend(t, FillCalls(c, front), ActionCalls(c, last));
    var tf := Run(t, FillCalls(c, front)).0;
    if a == last {
      ta := tf;
    } else {
      FrontName(keys, c.names, a);
      assert forall b :: b in front ==> b in keys;
      ta := FillCallsAt(c, t, front, a, q);
      OtherActionKeeps(c, tf, last, c.names[a], q);
    }
  }

  // ---------------------------------------------------------------------------
  // The tree a successful create_dirs leaves

  /** The names of the actions are never "init" or "postinit" and never
      begin with ESC. */
  lemma NamesApart(c: Compiled)
    requires Named(c) && Canonical(c.keys, c.names)
    ensures forall b :: b in c.keys ==> |c.names[b]| > 0 && c.names[b][0] != ESC
    ensures forall b :: b in c.keys ==> c.names[b] != "init" && c.names[b] != "postinit"
  {
    NotHexDigits();
    forall b | b in c.keys ensures |c.names[b]| > 0 && c.names[b][0] in LowerHexDigits {
      NameStart(c.keys, c.names, b);
    }
  }

  /** A successful create_dirs is a successful prologue, then a successful
      first pass, then a successful second pass. */
  lemma CreateDirsStages(c: Compiled, t: Tree) returns (t1: Tree, t2: Tree)
    requires Named(c) && Run(t, CreateDirsCalls(c)).1.Done?
    ensures Run(t, PrologueCalls(c.prompt)) == (t1, Done)
    ensures Run(t1, DirCalls(c.keys, c.names)) == (t2, Done)
    ensures Run(t2, FillCalls(c, c.keys)) == Run(t, CreateDirsCalls(c))
  {
    var pre, dirs, fill := PrologueCalls(c.prompt), DirCalls(c.keys, c.names), FillCalls(c, c.keys);
    RunAppend(t, pre + dirs, fill);
    RunAppend(t, pre, dirs);
    t1 := Run(t, pre).0;
    t2 := Run(t1, dirs).0;
  }

  /** A path neither pass may write keeps, through both, what the prologue
      left there. */
  lemma PassesKeep(c: Compiled, t1: Tree, q: Path)
    requires Named(c)
    requires forall b :: b in c.keys ==> q != [Root, c.names[b]]
    requires forall b :: b in c.keys ==> !LinkPath(q, c.names[b]) && q != [Root, c.names[b], "w"]
    requires q in t1
    ensures var t2 := Run(t1, DirCalls(c.keys, c.names)).0;
            q in Run(t2, FillCalls(c, c.keys)).0 && Run(t2, FillCalls(c, c.keys)).0[q] == t1[q]
  {
    var t2 := Run(t1, DirCalls(c.keys, c.names)).0;
    DirCallsUntouched(c.keys, c.names, q);
    RunUntouched(t1, DirCalls(c.keys, c.names), q);
    FillCallsUntouched(c, c.keys, q);
    RunUntouched(t2, FillCalls(c, c.keys), q);
  }

  /** A file at the top of the tree whose name starts neither with a hex
      digit nor with ESC is kept through both passes. */
  lemma TopFileKept(c: Compiled, t1: Tree, name: string)
    requires Named(c) && Canonical(c.keys, c.names)
    requires |name| > 0 && name[0] !in LowerHexDigits && name[0] != ESC
    requires [Root, name] in t1
    ensures var t2 := Run(t1, DirCalls(c.keys, c.names)).0;
            [Root, name] in Run(t2, FillCalls(c, c.keys)).0 &&
            Run(t2, FillCalls(c, c.keys)).0[[Root, name]] == t1[[Root, name]]
  {
    forall b | b in c.keys ensures |c.names[b]| > 0 && c.names[b][0] in LowerHexDigits {
      NameStart(c.keys, c.names, b);
    }
    PassesKeep(c, t1, [Root, name]);
  }

  /** Once create_dirs succeeds, init and postinit hold their programs. */
  lemma CreateDirsFiles(c: Compiled, t: Tree)
    requires Named(c) && Canonical(c.keys, c.names)
    requires Run(t, CreateDirsCalls(c)).1.Done?
    ensures var r := Run(t, CreateDirsCalls(c)).0;
            && [Root, "init"] in r && r[[Root, "init"]] == File(InitFile(c.prompt))
            && [Root, "postinit"] in r && r[[Root, "postinit"]] == File(PostInitFile())
  {
    var t1, t2 := CreateDirsStages(c, t);
    PrologueMade(t, c.prompt);
    NotHexDigits();
    assert "init"[0] == 'i' && "postinit"[0] == 'p';
    TopFileKept(c, t1, "init");
    TopFileKept(c, t1, "postinit");
  }

  /** The calls for one action, once they succeed, leave its program in w. */
  lemma ActionProgram(c: Compiled, ta: Tree, a: Action)
    requires Named(c) && a in c.names
    requires Run(ta, ActionCalls(c, a)).1.Done?
    ensures var ra := Run(ta, ActionCalls(c, a)).0;
            [Root, c.names[a], "w"] in ra && ra[[Root, c.names[a], "w"]] == File(Tapewriter(c.finals, a))
  {
    RunSnoc(ta, SymlinkCalls(c, a.next, c.names[a]), WriteFile([Root, c.names[a], "w"], Tapewriter(c.finals, a)));
  }

  /** The calls for one action, once they succeed, leave each link of its row
      in its directory: writing w afterwards does not disturb them. */
  lemma ActionLink(c: Compiled, ta: Tree, a: Action, p: Pair, i: nat)
    requires Named(c) && a in c.names
    requires a.next !in c.finals && a.next in c.table && DistinctKeys(c.table[a.next])
    requires HasKey(c.table[a.next], p) && i < 2
    requires Run(ta, ActionCalls(c, a)).1.Done?
    ensures Lookup(c.table[a.next], p) in c.names
    ensures var ra := Run(ta, ActionCalls(c, a)).0;
            && [Root, c.names[a], CheckNames(p)[i]] in ra
            && ra[[Root, c.names[a], CheckNames(p)[i]]] == Link("../" + c.names[Lookup(c.table[a.next], p)])
  {
    var q := [Root, c.names[a], CheckNames(p)[i]];
    var w := [Root, c.names[a], "w"];
    RunSnoc(ta, SymlinkCalls(c, a.next, c.names[a]), WriteFile(w, Tapewriter(c.finals, a)));
    SymlinkTargets(c, ta, a.next, c.names[a], p, i);
    CheckNamesStart(p);
    assert q != w by {
      assert q[2][0] == ESC && w[2][0] == 'w';
    }
  }

  /** The second pass keeps whatever is at an action's own path. */
  lemma DirKept(c: Compiled, t2: Tree, a: Action)
    requires Named(c) && Canonical(c.keys, c.names) && a in c.names
    requires [Root, c.names[a]] in t2
    ensures [Root, c.names[a]] in Run(t2, FillCalls(c, c.keys)).0
    ensures Run(t2, FillCalls(c, c.keys)).0[[Root, c.names[a]]] == t2[[Root, c.names[a]]]
  {
    NamesApart(c);
    FillCallsUntouched(c, c.keys, [Root, c.names[a]]);
    RunUntouched(t2, FillCalls(c, c.keys), [Root, c.names[a]]);
  }

  /** Once create_dirs succeeds, each named action has a directory. */
  lemma CreateDirsDir(c: Compiled, t: Tree, a: Action)
    requires Named(c) && Canonical(c.keys, c.names) && a in c.names
    requires Run(t, CreateDirsCalls(c)).1.Done?
    ensures var r := Run(t, CreateDirsCalls(c)).0;
            [Root, c.names[a]] in r && r[[Root, c.names[a]]] == Dir
  {
    var t1, t2 := CreateDirsStages(c, t);
    DirCallsMade(t1, c.keys, c.names, a);
    DirKept(c, t2, a);
  }

  /** Once create_dirs succeeds, the file w of each named action's directory
      holds the program that rewrites the tape for that action. */
  lemma CreateDirsProgram(c: Compiled, t: Tree, a: Action)
    requires Named(c) && Canonical(c.keys, c.names) && a in c.names
    requires Run(t, CreateDirsCalls(c)).1.Done?
    ensures var r := Run(t, CreateDirsCalls(c)).0;
            [Root, c.names[a], "w"] in r && r[[Root, c.names[a], "w"]] == File(Tapewriter(c.finals, a))
  {
    var t1, t2 := CreateDirsStages(c, t);
    CanonicalDistinctNames(c.keys, c.names);
    var ta := FillCallsAt(c, t2, c.keys, a, [Root, c.names[a], "w"]);
    ActionProgram(c, ta, a);
  }

  /** Once create_dirs succeeds, the directory of an action whose next state
      has a row holds, under both check names of each pair of that row, a link
      to the directory of the action the row gives for the pair. */
  lemma CreateDirsLinks(c: Compiled, t: Tree, a: Action, p: Pair, i: nat)
    requires Named(c) && Canonical(c.keys, c.names) && a in c.names
    requires a.next !in c.finals && a.next in c.table && DistinctKeys(c.table[a.next])
    requires HasKey(c.table[a.next], p) && i < 2
    requires Run(t, CreateDirsCalls(c)).1.Done?
    ensures Lookup(c.table[a.next], p) in c.names
    ensures var r := Run(t, CreateDirsCalls(c)).0;
            && [Root, c.names[a], CheckNames(p)[i]] in r
            && r[[Root, c.names[a], CheckNames(p)[i]]] == Link("../" + c.names[Lookup(c.table[a.next], p)])
  {
    var t1, t2 := CreateDirsStages(c, t);
    CanonicalDistinctNames(c.keys, c.names);
    var ta := FillCallsAt(c, t2, c.keys, a, [Root, c.names[a], CheckNames(p)[i]]);
    ActionLink(c, ta, a, p, i);
  }

  // ---------------------------------------------------------------------------
  // When create_dirs succeeds on an empty tree

  /** An action whose next state is neither final nor has a row: looking up
      that row in create_symlinks raises KeyError. */
  predicate Stuck(c: Compiled, a: Action) {
    a.next !in c.finals && a.next !in c.table
  }

  /** Every row of the table maps each pair at most once. */
  predicate RowsDistinct(c: Compiled) {
    forall s :: s in c.table ==> DistinctKeys(c.table[s])
  }

  /** Nothing exists yet inside the directories of the actions in keys. */
  ghost predicate FreshDirs(c: Compiled, t: Tree, keys: seq<Action>)
    requires forall b :: b in keys ==> b in c.names
  {
    forall b, q :: b in keys && InDir(q, c.names[b]) ==> q !in t
  }

  /** The calls for one action on a tree with nothing inside its directory
      fail exactly when the action is stuck, with that KeyError. */
  lemma ActionOutcome(c: Compiled, t: Tree, a: Action)
    requires Named(c) && RowsDistinct(c) && a in c.names
    requires forall q :: InDir(q, c.names[a]) ==> q !in t
    ensures Run(t, ActionCalls(c, a)).1 == if Stuck(c, a) then Failed(KeyError(a.next)) else Done
  {
    var w := [Root, c.names[a], "w"];
    var links := SymlinkCalls(c, a.next, c.names[a]);
    var write := WriteFile(w, Tapewriter(c.finals, a));
    assert InDir(w, c.names[a]);
    RunSnoc(t, links, write);
    if Stuck(c, a) {
      assert links[1..] == [];
    } else {
      if a.next !in c.finals {
        SymlinkFailure(c, t, a.next, c.names[a]);
      }
      SymlinkCallsWithin(c, a.next, c.names[a]);
      ProgramNotLink(c.names[a], c.names[a]);
      LinksWithinUntouched(links, c.names[a], w);
      RunUntouched(t, links, w);
    }
  }

  /** The second pass over the actions before the last one leaves the last
      one's directory as empty as it found it. */
  lemma FrontLeavesLast(c: Compiled, t: Tree, keys: seq<Action>)
    requires Named(c) && (forall b :: b in keys ==> b in c.names) && keys != []
    requires DistinctNames(keys, c.names) && FreshDirs(c, t, keys)
    ensures var front, last := keys[..|keys| - 1], keys[|keys| - 1];
            forall q :: InDir(q, c.names[last]) ==> q !in Run(t, FillCalls(c, front)).0
  {
    var front, last := keys[..|keys| - 1], keys[|keys| - 1];
    assert forall b :: b in front ==> b in keys;
    forall q | InDir(q, c.names[last]) ensures q !in Run(t, FillCalls(c, front)).0 {
      forall b | b in front ensures !LinkPath(q, c.names[b]) && q != [Root, c.names[b], "w"] {
        var i :| 0 <= i < |front| && front[i] == b;
        assert c.names[keys[i]] != c.names[keys[|keys| - 1]];
      }
      FillCallsUntouched(c, front, q);
      RunUntouched(t, FillCalls(c, front), q);
    }
  }

  /** The second pass on a tree with nothing inside the action directories
      fails exactly when some action is stuck, with the KeyError of such an
      action. */
  lemma {:induction false} FillOutcome(c: Compiled, t: Tree, keys: seq<Action>)
    requires Named(c) && RowsDistinct(c) && (forall b :: b in keys ==> b in c.names)
    requires DistinctNames(keys, c.names) && FreshDirs(c, t, keys)
    ensures Run(t, FillCalls(c, keys)).1.Failed? <==> exists b :: b in keys && Stuck(c, b)
    ensures Run(t, FillCalls(c, keys)).1.Failed? ==>
            exists b :: b in keys && Stuck(c, b) && Run(t, FillCalls(c, keys)).1 == Failed(KeyError(b.next))
    decreases |keys|
  {
    if keys != [] {
      var front := keys[..|keys| - 1];
      var last := keys[|keys| - 1];
      assert keys == front + [last];
      assert forall b :: b in front ==> b in keys;
      FillOutcome(c, t, front);
      RunAppend(t, FillCalls(c, front), ActionCalls(c, last));
      if Run(t, FillCalls(c, front)).1.Done? {
        FrontLeavesLast(c, t, keys);
        ActionOutcome(c, Run(t, FillCalls(c, front)).0, last);
      }
    }
  }

  /** After the prologue and the first pass on an empty tree, nothing exists
      inside any action's directory. */
  lemma DirsLeaveFresh(c: Compiled, t1: Tree)
    requires Named(c) && t1.Keys == {[Root], [Root, "init"], [Root, "postinit"]}
    ensures FreshDirs(c, Run(t1, DirCalls(c.keys, c.names)).0, c.keys)
  {
    forall b, q | b in c.keys && InDir(q, c.names[b]) ensures q !in Run(t1, DirCalls(c.keys, c.names)).0 {
      DirCallsUntouched(c.keys, c.names, q);
      RunUntouched(t1, DirCalls(c.keys, c.names), q);
    }
  }

  /** The prologue succeeds on an empty tree. */
  lemma PrologueSucceeds(prompt: string)
    ensures Run(map[], PrologueCalls(prompt)).1.Done?
  {
    var pre := PrologueCalls(prompt);
    assert pre == [pre[0]] + [pre[1]] + [pre[2]];
    RunSnoc(map[], [pre[0]] + [pre[1]], pre[2]);
    RunSnoc(map[], [pre[0]], pre[1]);
    assert [pre[0]][1..] == [];
    assert [Root] != [Root, "init"] && [Root] != [Root, "postinit"] && [Root, "init"] != [Root, "postinit"];
  }

  /** On an empty tree the prologue leaves exactly the root, init and postinit. */
  lemma EmptyPrologue(prompt: string)
    ensures Run(map[], PrologueCalls(prompt)).1.Done?
    ensures Run(map[], PrologueCalls(prompt)).0.Keys == {[Root], [Root, "init"], [Root, "postinit"]}
  {
    PrologueSucceeds(prompt);
    PrologueMade(map[], prompt);
  }

  /** No action directory exists after the prologue on an empty tree. */
  lemma DirsAbsent(c: Compiled, t1: Tree)
    requires Named(c) && Canonical(c.keys, c.names)
    requires t1.Keys == {[Root], [Root, "init"], [Root, "postinit"]}
    ensures forall b :: b in c.keys ==> [Root, c.names[b]] !in t1
  {
    NamesApart(c);
  }

  /** On an empty tree, the prologue and the first pass succeed and leave
      every action directory empty. */
  lemma EmptyStages(c: Compiled) returns (t2: Tree)
    requires Named(c) && Canonical(c.keys, c.names)
    ensures Run(map[], PrologueCalls(c.prompt) + DirCalls(c.keys, c.names)) == (t2, Done)
    ensures FreshDirs(c, t2, c.keys)
  {
    var pre, dirs := PrologueCalls(c.prompt), DirCalls(c.keys, c.names);
    RunAppend(map[], pre, dirs);
    EmptyPrologue(c.prompt);
    var t1 := Run(map[], pre).0;
    DirsAbsent(c, t1);
    CanonicalDistinctNames(c.keys, c.names);
    DirCallsSucceed(t1, c.keys, c.names);
    t2 := Run(t1, dirs).0;
    DirsLeaveFresh(c, t1);
  }

  /** From an empty tree, create_dirs fails only when a named action is
      stuck, and then with the KeyError of such an action: the directories,
      files and links it makes never clash. */
  lemma CreateDirsFromEmpty(c: Compiled)
    requires Named(c) && Canonical(c.keys, c.names) && RowsDistinct(c)
    ensures Run(map[], CreateDirsCalls(c)).1.Failed? <==> exists b :: b in c.keys && Stuck(c, b)
    ensures Run(map[], CreateDirsCalls(c)).1.Failed? ==>
            exists b :: b in c.keys && Stuck(c, b) && Run(map[], CreateDirsCalls(c)).1 == Failed(KeyError(b.next))
  {
    var t2 := EmptyStages(c);
    RunAppend(map[], PrologueCalls(c.prompt) + DirCalls(c.keys, c.names), FillCalls(c, c.keys));
    CanonicalDistinctNames(c.keys, c.names);
    FillOutcome(c, t2, c.keys);
  }

  // ---------------------------------------------------------------------------
  // The links at the top of the tree

  /** The action a row gives for one of its pairs has a name. */
  lemma LookupNamed(c: Compiled, s: string, p: Pair)
    requires Named(c) && s in c.table && HasKey(c.table[s], p)
    ensures Lookup(c.table[s], p) in c.names
  {
    var row := c.table[s];
    var k :| 0 <= k < |row| && row[k] == (p, Lookup(row, p));
  }

  /** The calls for an action whose next state is not the initial state keep
      every path at the top of the tree as they found it. */
  lemma ActionRootKept(c: Compiled, t: Tree, b: Action, q: Path)
    requires Named(c) && RowsDistinct(c) && b in c.names && b.next != c.initial
    requires |q| == 2 && q[0] == Root
    ensures var r := Run(t, ActionCalls(c, b)).0;
            (q in r <==> q in t) && (q in t ==> r[q] == t[q])
  {
    var w := [Root, c.names[b], "w"];
    RunSnoc(t, SymlinkCalls(c, b.next, c.names[b]), WriteFile(w, Tapewriter(c.finals, b)));
    if b.next !in c.finals && b.next in c.table {
      RowLinkingsUnambiguous(c.table[b.next], c.names);
      LinksFrame(t, RowLinkings(c.table[b.next], c.names), c.names[b], false, q);
    }
  }

  /** create_symlinks for the initial state, once it succeeds, has each
      check name of the initial row at the top of the tree: the old entry
      if there was one, otherwise a link to the name of the row's action. */
  lemma InitialRootLink(c: Compiled, t: Tree, dir: string, p: Pair, i: nat)
    requires Named(c) && RowsDistinct(c)
    requires c.initial !in c.finals && c.initial in c.table
    requires HasKey(c.table[c.initial], p) && i < 2
    requires Run(t, SymlinkCalls(c, c.initial, dir)).1.Done?
    ensures Lookup(c.table[c.initial], p) in c.names
    ensures var r, q := Run(t, SymlinkCalls(c, c.initial, dir)).0, [Root, CheckNames(p)[i]];
            q in r && r[q] == if q in t then t[q] else Link(c.names[Lookup(c.table[c.initial], p)])
  {
    var row := c.table[c.initial];
    var ls := RowLinkings(row, c.names);
    var k :| 0 <= k < |row| && row[k].0 == p;
    LookupEntry(row, k);
    RowLinkingsAt(row, c.names, k);
    assert ls[k].checknames == CheckNames(p) && ls[k].target == c.names[Lookup(row, p)];
    RowLinkingsUnambiguous(row, c.names);
    RootLinksTargets(t, ls, dir, k, i);
  }

  /** The calls for an action whose next state is the initial state leave,
      at the top of the tree, the link of each check name of the initial
      row to the name of the row's action, unless that same link was there. */
  lemma ActionRootLink(c: Compiled, t: Tree, b: Action, p: Pair, i: nat)
    requires Named(c) && RowsDistinct(c) && b in c.names && b.next == c.initial
    requires c.initial !in c.finals && c.initial in c.table
    requires HasKey(c.table[c.initial], p) && i < 2
    requires Run(t, ActionCalls(c, b)).1.Done?
    requires Lookup(c.table[c.initial], p) in c.names
    requires var q := [Root, CheckNames(p)[i]];
             q in t ==> t[q] == Link(c.names[Lookup(c.table[c.initial], p)])
    ensures var r, q := Run(t, ActionCalls(c, b)).0, [Root, CheckNames(p)[i]];
            q in r && r[q] == Link(c.names[Lookup(c.table[c.initial], p)])
  {
    var w := [Root, c.names[b], "w"];
    RunSnoc(t, SymlinkCalls(c, b.next, c.names[b]), WriteFile(w, Tapewriter(c.finals, b)));
    InitialRootLink(c, t, c.names[b], p, i);
  }

  /** Some action among keys leads to the initial state. */
  predicate LeadsToInitial(c: Compiled, keys: seq<Action>) {
    exists b :: b in keys && b.next == c.initial
  }

  lemma LeadsToInitialSnoc(c: Compiled, keys: seq<Action>)
    requires keys != []
    ensures LeadsToInitial(c, keys) <==>
            LeadsToInitial(c, keys[..|keys| - 1]) || keys[|keys| - 1].next == c.initial
  {
    assert keys == keys[..|keys| - 1] + [keys[|keys| - 1]];
    assert forall b :: b in keys <==> b in keys[..|keys| - 1] || b == keys[|keys| - 1];
  }

  /** One action's calls in the second pass, for a check name of the initial
      row at the top: if the name held the row's link before (as it does
      exactly when before holds), it still does; if the action leads to the
      initial state, the name holds that link afterwards. */
  lemma ActionRootStep(c: Compiled, t: Tree, b: Action, p: Pair, i: nat, before: bool)
    requires Named(c) && RowsDistinct(c) && b in c.names
    requires c.initial !in c.finals && c.initial in c.table
    requires HasKey(c.table[c.initial], p) && i < 2
    requires Lookup(c.table[c.initial], p) in c.names
    requires Run(t, ActionCalls(c, b)).1.Done?
    requires [Root, CheckNames(p)[i]] in t <==> before
    requires [Root, CheckNames(p)[i]] in t ==>
             t[[Root, CheckNames(p)[i]]] == Link(c.names[Lookup(c.table[c.initial], p)])
    ensures var r := Run(t, ActionCalls(c, b)).0;
            [Root, CheckNames(p)[i]] in r <==> before || b.next == c.initial
    ensures var r := Run(t, ActionCalls(c, b)).0;
            [Root, CheckNames(p)[i]] in r ==>
            r[[Root, CheckNames(p)[i]]] == Link(c.names[Lookup(c.table[c.initial], p)])
  {
    if b.next == c.initial {
      ActionRootLink(c, t, b, p, i);
    } else {
      ActionRootKept(c, t, b, [Root, CheckNames(p)[i]]);
    }
  }

  /** Over the second pass, starting with no link at a check name of the
      initial row at the top: the link is there at the end exactly when some
      action leads to the initial state, and then it names the row's action. */
  lemma {:induction false} FillRootLinks(c: Compiled, t: Tree, keys: seq<Action>, p: Pair, i: nat)
    requires Named(c) && RowsDistinct(c) && (forall b :: b in keys ==> b in c.names)
    requires c.initial !in c.finals && c.initial in c.table
    requires HasKey(c.table[c.initial], p) && i < 2
    requires [Root, CheckNames(p)[i]] !in t
    requires Run(t, FillCalls(c, keys)).1.Done?
    ensures Lookup(c.table[c.initial], p) in c.names
    ensures var r := Run(t, FillCalls(c, keys)).0;
            [Root, CheckNames(p)[i]] in r <==> LeadsToInitial(c, keys)
    ensures var r := Run(t, FillCalls(c, keys)).0;
            [Root, CheckNames(p)[i]] in r ==>
            r[[Root, CheckNames(p)[i]]] == Link(c.names[Lookup(c.table[c.initial], p)])
    decreases |keys|
  {
    LookupNamed(c, c.initial, p);
    if keys != [] {
      var front := keys[..|keys| - 1];
      var last := keys[|keys| - 1];
      assert forall b :: b in front ==> b in keys;
      RunAppend(t, FillCalls(c, front), ActionCalls(c, last));
      FillRootLinks(c, t, front, p, i);
      LeadsToInitialSnoc(c, keys);
      ActionRootStep(c, Run(t, FillCalls(c, front)).0, last, p, i, LeadsToInitial(c, front));
    }
  }

  /** The prologue on an empty tree makes no name that starts with ESC. */
  lemma PrologueNoRootLink(prompt: string, name: string)
    requires StartsWithEsc(name)
    ensures [Root, name] !in Run(map[], PrologueCalls(prompt)).0
  {
    EmptyPrologue(prompt);
    assert "init"[0] == 'i' && "postinit"[0] == 'p';
  }

  /** After the prologue and the first pass on an empty tree, no name that
      starts with ESC exists at the top. */
  lemma EmptyNoRootLink(c: Compiled, name: string)
    requires Named(c) && Canonical(c.keys, c.names) && StartsWithEsc(name)
    ensures [Root, name] !in Run(map[], PrologueCalls(c.prompt) + DirCalls(c.keys, c.names)).0
  {
    var pre, dirs := PrologueCalls(c.prompt), DirCalls(c.keys, c.names);
    RunAppend(map[], pre, dirs);
    PrologueNoRootLink(c.prompt, name);
    NamesApart(c);
    DirCallsUntouched(c.keys, c.names, [Root, name]);
    RunUntouched(Run(map[], pre).0, dirs, [Root, name]);
  }

  /** On an empty tree, the second pass starts from a tree with no check
      name of the initial row at the top. */
  lemma RootLinkStart(c: Compiled, p: Pair, i: nat) returns (t2: Tree)
    requires Named(c) && Canonical(c.keys, c.names) && i < 2
    ensures Run(map[], CreateDirsCalls(c)) == Run(t2, FillCalls(c, c.keys))
    ensures [Root, CheckNames(p)[i]] !in t2
  {
    t2 := EmptyStages(c);
    RunAppend(map[], PrologueCalls(c.prompt) + DirCalls(c.keys, c.names), FillCalls(c, c.keys));
    CheckNamesStart(p);
    EmptyNoRootLink(c, CheckNames(p)[i]);
  }

  /** Once create_dirs succeeds on an empty tree, each check name of the
      initial state's row exists at the top of the tree exactly when some
      action leads to the initial state, and then links to the name of the
      action the row gives for the pair: the first read starts there. */
  lemma CreateDirsRootLinks(c: Compiled, p: Pair, i: nat)
    requires Named(c) && Canonical(c.keys, c.names) && RowsDistinct(c)
    requires c.initial !in c.finals && c.initial in c.table
    requires HasKey(c.table[c.initial], p) && i < 2
    requires Run(map[], CreateDirsCalls(c)).1.Done?
    ensures Lookup(c.table[c.initial], p) in c.names
    ensures var r := Run(map[], CreateDirsCalls(c)).0;
            [Root, CheckNames(p)[i]] in r <==> LeadsToInitial(c, c.keys)
    ensures var r := Run(map[], CreateDirsCalls(c)).0;
            [Root, CheckNames(p)[i]] in r ==>
            r[[Root, CheckNames(p)[i]]] == Link(c.names[Lookup(c.table[c.initial], p)])
  {
    var t2 := RootLinkStart(c, p, i);
    FillRootLinks(c, t2, c.keys, p, i);
  }
}
