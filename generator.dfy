/**
 * DTuring: the generator object. It completes the transition table, numbers
 * every distinct action, and writes the directory tree through a FileSystem.
 */
module Generator {
  import opened Terminal
  import opened Machine
  import opened FileTree
  import opened Layout

  class DTuring {
    /** state -> row of (pair -> action). */
    var transitions: map<string, Row>
    /** The states, in the order of the table's keys. */
    var states: seq<string>
    var initialState: string
    /** final state -> the message shown when the machine halts there. */
    var finalStates: map<string, string>
    /** action -> its canonical name (mono_states). */
    var monoStates: map<Action, string>
    /** The actions of monoStates in insertion order. */
    var monoKeys: seq<Action>
    var monoNum: nat
    var prompt: string

    /** The name dict is canonical and mono_num counts its entries. */
    ghost predicate NamesValid()
      reads this
    {
      Canonical(monoKeys, monoStates) && monoNum == |monoKeys|
    }

    /** The table has one row per listed state, rows are dicts, and every
        action in the table has a name. */
    ghost predicate Valid()
      reads this
    {
      && NamesValid()
      && Distinct(states)
      && (forall s :: s in transitions <==> s in states)
      && (forall s :: s in transitions ==> DistinctKeys(transitions[s]) && RowNamed(transitions[s], monoStates))
    }

    /** The state create_dirs works from. */
    function Model(): Compiled
      reads this
    {
      Compiled(transitions, initialState, finalStates, prompt, monoKeys, monoStates)
    }

    lemma ValidNamed()
      requires Valid()
      ensures Named(Model())
    {
    }

    /** DTuring(transitions, initial_state, final_states, prompt): the table is
        given as its state order and its rows. */
    constructor (order: seq<string>, rows: map<string, Row>, initial: string,
                 finals: map<string, string>, prompt: string := "")
      requires Distinct(order) && (forall s :: s in rows <==> s in order)
      requires forall s :: s in rows ==> DistinctKeys(rows[s])
      ensures Valid()
      ensures states == CompletedStates(order)
      ensures finalStates == CompletedFinals(finals)
      ensures transitions == CompletedTable(rows, states)
      ensures initialState == initial && this.prompt == prompt
      ensures monoKeys == InternAll([], TableActions(states, transitions))
      ensures forall a :: a in monoStates <==>
                exists i, k :: 0 <= i < |states| && 0 <= k < |transitions[states[i]]| && transitions[states[i]][k].1 == a
      ensures monoNum <= 9 * |states|
    {
      transitions := rows;
      states := order;
      initialState := initial;
      finalStates := finals;
      monoStates := map[];
      monoKeys := [];
      monoNum := 0;
      this.prompt := prompt;
      new;
      AddInvalid();
      CombineStateWithMove();
      NamedActions(states, transitions, monoKeys, monoStates);
    }

    /** _add_invalid: register the "invalid" halting state and complete every
        row with the default action for the pairs it lacks. */
    method AddInvalid()
      modifies this
      requires Distinct(states) && (forall s :: s in transitions <==> s in states)
      requires forall s :: s in transitions ==> DistinctKeys(transitions[s])
      ensures states == CompletedStates(old(states))
      ensures finalStates == CompletedFinals(old(finalStates))
      ensures transitions == CompletedTable(old(transitions), states)
      ensures Distinct(states) && (forall s :: s in transitions <==> s in states)
      ensures forall s :: s in transitions ==> DistinctKeys(transitions[s])
      ensures initialState == old(initialState) && prompt == old(prompt)
      ensures monoStates == old(monoStates) && monoKeys == old(monoKeys) && monoNum == old(monoNum)
    {
      if Invalid !in states {
        DistinctSnoc(states, Invalid);
        states := states + [Invalid];
      }
      if Invalid !in finalStates {
        finalStates := finalStates[Invalid := InvalidMessage];
      }
      assert forall s :: s in transitions ==> s in states;
      CompleteRows();
    }

    /** The loop of _add_invalid: the row of every listed state, or a new empty
        one, is completed in turn. */
    method CompleteRows()
      modifies this
      requires Distinct(states) && forall s :: s in transitions ==> s in states
      requires forall s :: s in transitions ==> DistinctKeys(transitions[s])
      ensures transitions == CompletedTable(old(transitions), states)
      ensures forall s :: s in transitions ==> DistinctKeys(transitions[s])
      ensures states == old(states) && finalStates == old(finalStates)
      ensures initialState == old(initialState) && prompt == old(prompt)
      ensures monoStates == old(monoStates) && monoKeys == old(monoKeys) && monoNum == old(monoNum)
    {
      ghost var rows := transitions;
      var table := transitions;
      var n := 0;
      while n < |states|
        modifies {}
        invariant 0 <= n <= |states|
        invariant CompleteEach(table, states[n..]) == CompleteEach(rows, states)
      {
        var s := states[n];
        assert states[n..][1..] == states[n + 1..];
        var row := if s in table then table[s] else [];
        row := FillRow(row);
        table := table[s := row];
        n := n + 1;
      }
      CompleteEachTable(rows, states);
      CompletedTableDistinct(rows, states);
      transitions := table;
    }

    /** The inner loop of _add_invalid: every pair of the alphabet the row
        lacks is added, in order, with the default action. */
    static method FillRow(row: Row) returns (r: Row)
      ensures r == CompleteRow(row)
    {
      r := row;
      var i := 0;
      while i < |AllPairs|
        invariant 0 <= i <= |AllPairs|
        invariant r == FillPairs(row, AllPairs[..i])
      {
        var p := AllPairs[i];
        FillPairsSnoc(row, AllPairs, i);
        if !HasKey(r, p) {
          r := r + [(p, DefaultAction)];
        }
        i := i + 1;
      }
      assert AllPairs[..|AllPairs|] == AllPairs;
    }

    /** s_to_string: the name of an action, numbering it first if it is new. */
    method SToString(a: Action) returns (name: string)
      modifies this
      requires NamesValid()
      ensures NamesValid()
      ensures monoKeys == Intern(old(monoKeys), a)
      ensures a in monoStates && name == monoStates[a]
      ensures a in old(monoStates) ==> monoStates == old(monoStates) && monoNum == old(monoNum)
      ensures a !in old(monoStates) ==>
                name == LowerHex(old(monoNum)) && monoNum == old(monoNum) + 1
                && monoStates == old(monoStates)[a := name]
      ensures transitions == old(transitions) && states == old(states) && finalStates == old(finalStates)
      ensures initialState == old(initialState) && prompt == old(prompt)
    {
      if a !in monoStates {
        monoStates := monoStates[a := LowerHex(monoNum)];
        monoKeys := monoKeys + [a];
        monoNum := monoNum + 1;
      }
      name := monoStates[a];
    }

    /** The inner loop of _combine_state_with_move: s_to_string on every
        action of one row, in order. */
    method NameRow(row: Row)
      modifies this
      requires NamesValid()
      ensures transitions == old(transitions) && states == old(states) && finalStates == old(finalStates)
      ensures initialState == old(initialState) && prompt == old(prompt)
      ensures NamesValid()
      ensures monoKeys == InternAll(old(monoKeys), RowActions(row))
    {
      var k := 0;
      while k < |row|
        invariant 0 <= k <= |row|
        invariant transitions == old(transitions) && states == old(states) && finalStates == old(finalStates)
        invariant initialState == old(initialState) && prompt == old(prompt)
        invariant NamesValid()
        invariant monoKeys == InternAll(old(monoKeys), RowActions(row[..k]))
      {
        InternSnoc(old(monoKeys), RowActions(row[..k]), row[k].1);
        RowActionsSnoc(row, k);
        var _ := SToString(row[k].1);
        k := k + 1;
      }
      assert row[..k] == row;
    }

    /** _combine_state_with_move: name every action of the table, state by
        state and entry by entry. */
    method CombineStateWithMove()
      modifies this
      requires NamesValid() && forall s :: s in states ==> s in transitions
      ensures transitions == old(transitions) && states == old(states) && finalStates == old(finalStates)
      ensures initialState == old(initialState) && prompt == old(prompt)
      ensures NamesValid()
      ensures monoKeys == InternAll(old(monoKeys), TableActions(states, transitions))
      ensures forall s :: s in states ==> RowNamed(transitions[s], monoStates)
    {
      var n := 0;
      while n < |states|
        invariant 0 <= n <= |states|
        invariant transitions == old(transitions) && states == old(states) && finalStates == old(finalStates)
        invariant initialState == old(initialState) && prompt == old(prompt)
        invariant NamesValid()
        invariant monoKeys == InternAll(old(monoKeys), TableActions(states[..n], transitions))
      {
        InternAppend(old(monoKeys), TableActions(states[..n], transitions), RowActions(transitions[states[n]]));
        NameRow(transitions[states[n]]);
        TableActionsSnoc(states, transitions, n);
        n := n + 1;
      }
      assert states[..n] == states;
      ScannedNamed(states, transitions, old(monoKeys), monoKeys, monoStates);
    }

    /** create_symlinks(state, name): for each entry of the state's row and
        each of its two check names, the root link (initial state only, an
        existing name is kept) and the link inside the action's directory.
        Nothing for a final state; a KeyError for a state without a row; the
        first FileExistsError inside the directory stops the run. */
    method CreateSymlinks(fs: FileSystem, state: string, name: string) returns (o: Outcome)
      modifies this, fs
      requires NamesValid() && Named(Model())
      ensures Model() == old(Model()) && states == old(states) && monoNum == old(monoNum)
      ensures NamesValid() && Named(Model())
      ensures (fs.tree, o) == Run(old(fs.tree), SymlinkCalls(Model(), state, name))
    {
      if state in finalStates {
        return Done;
      }
      if state !in transitions {
        return Failed(KeyError(state));
      }
      o := LinkRow(fs, state, name);
    }

    /** The loop of create_symlinks over the row of state: each entry's two
        check names in order, stopping at the first FileExistsError. */
    method LinkRow(fs: FileSystem, state: string, name: string) returns (o: Outcome)
      modifies this, fs
      requires NamesValid() && Named(Model()) && state in transitions
      ensures Model() == old(Model()) && states == old(states) && monoNum == old(monoNum)
      ensures NamesValid() && Named(Model())
      ensures (fs.tree, o) == Run(old(fs.tree), LinkingCalls(RowLinkings(transitions[state], monoStates), name, state == initialState))
    {
      ghost var t0 := fs.tree;
      var row := transitions[state];
      ghost var isInitial := state == initialState;
      ghost var ls := RowLinkings(row, monoStates);
      o := Done;
      var k := 0;
      while k < |row|
        invariant Model() == old(Model()) && states == old(states) && monoNum == old(monoNum)
        invariant NamesValid()
        invariant 0 <= k <= |row|
        invariant (fs.tree, o) == Run(t0, LinkingCalls(ls[..k], name, isInitial))
        invariant o.Done?
      {
        RowLinkingsAt(row, monoStates, k);
        o := LinkEntry(fs, state, name, row[k]);
        LinkingCallsSnoc(ls, name, isInitial, k);
        RunAppend(t0, LinkingCalls(ls[..k], name, isInitial), NameListCalls(ls[k].checknames, ls[k].target, name, isInitial));
        if o.Failed? {
          LinkingStops(t0, ls, name, isInitial, k + 1);
          return;
        }
        k := k + 1;
      }
      assert ls[..k] == ls;
    }

    /** The inner loop of create_symlinks for one entry of the row of state:
        both check names of its pair, each linked to the entry's action. */
    method LinkEntry(fs: FileSystem, state: string, name: string, entry: (Pair, Action)) returns (o: Outcome)
      modifies this, fs
      requires NamesValid() && entry.1 in monoStates
      ensures Model() == old(Model()) && states == old(states) && monoNum == old(monoNum)
      ensures NamesValid()
      ensures (fs.tree, o) == Run(old(fs.tree), NameListCalls(CheckNames(entry.0), monoStates[entry.1], name, state == initialState))
    {
      ghost var t0 := fs.tree;
      var checknames := CheckNames(entry.0);
      o := Done;
      var m := 0;
      while m < |checknames|
        invariant Model() == old(Model()) && states == old(states) && monoNum == old(monoNum)
        invariant NamesValid()
        invariant 0 <= m <= |checknames|
        invariant (fs.tree, o) == Run(t0, NameListCalls(checknames[..m], monoStates[entry.1], name, state == initialState))
        invariant o.Done?
      {
        ghost var target := monoStates[entry.1];
        o := LinkName(fs, state, name, checknames[m], entry.1);
        NameListCallsSnoc(checknames, target, name, state == initialState, m);
        RunAppend(t0, NameListCalls(checknames[..m], target, name, state == initialState),
                  NameCalls(checknames[m], target, name, state == initialState));
        if o.Failed? {
          NameListStops(t0, checknames, target, name, state == initialState, m + 1);
          return;
        }
        m := m + 1;
      }
      assert checknames[..m] == checknames;
    }

    /** The body of that loop for one check name: the action's name, the
        root link (initial state only, a FileExistsError is caught) and the
        link inside the directory name. */
    method LinkName(fs: FileSystem, state: string, name: string, checkname: string, a: Action) returns (o: Outcome)
      modifies this, fs
      requires NamesValid() && a in monoStates
      ensures Model() == old(Model()) && states == old(states) && monoNum == old(monoNum)
      ensures NamesValid()
      ensures (fs.tree, o) == Run(old(fs.tree), NameCalls(checkname, monoStates[a], name, state == initialState))
    {
      var target := SToString(a);
      if state == initialState {
        // a FileExistsError here is caught: the existing name is kept
        var _ := fs.Symlink(target, [Root, checkname]);
      }
      o := fs.Symlink("../" + target, [Root, name, checkname]);
      NameCallsRun(old(fs.tree), checkname, target, name, state == initialState);
    }

    /** create_tapewriter_file(outpath, state, change1, change2): the file w
        of the directory holds the halt message when the next state is
        final, otherwise the step program. */
    method CreateTapewriterFile(fs: FileSystem, outpath: Path, state: string, change1: Change, change2: Change)
      returns (o: Outcome)
      modifies fs
      ensures (fs.tree, o) == Apply(old(fs.tree), WriteFile(outpath + ["w"], Tapewriter(finalStates, Action(state, change1, change2))))
    {
      var tapewriter;
      if state in finalStates {
        tapewriter := SendMessage(finalStates[state]);
      } else {
        tapewriter := CreateTapewriter(SymChar(change1.sym), change1.move, SymChar(change2.sym), change2.move);
      }
      o := fs.Write(outpath + ["w"], tapewriter);
    }

    /** create_dirs: the root directory with its init and postinit files,
        one directory per named action, then the links and the program file
        of each, in the order the actions were named. The first error stops
        the run. */
    method CreateDirs(fs: FileSystem) returns (o: Outcome)
      modifies this, fs
      requires Valid()
      ensures Model() == old(Model()) && states == old(states) && monoNum == old(monoNum)
      ensures Valid()
      ensures (fs.tree, o) == Run(old(fs.tree), CreateDirsCalls(Model()))
    {
      ghost var t0 := fs.tree;
      ghost var c := Model();
      ValidNamed();
      ghost var pre := PrologueCalls(prompt);
      ghost var dirs := DirCalls(monoKeys, monoStates);
      RunAppend(t0, pre + dirs, FillCalls(c, monoKeys));
      RunAppend(t0, pre, dirs);
      o := Prologue(fs);
      if o.Failed? {
        return;
      }
      o := MakeDirs(fs);
      if o.Failed? {
        return;
      }
      o := FillDirs(fs);
    }

    /** The first three calls of create_dirs. */
    method Prologue(fs: FileSystem) returns (o: Outcome)
      modifies fs
      ensures (fs.tree, o) == Run(old(fs.tree), PrologueCalls(prompt))
    {
      ghost var t0 := fs.tree;
      ghost var steps := PrologueCalls(prompt);
      assert steps == [steps[0]] + [steps[1]] + [steps[2]];
      RunSnoc(t0, [steps[0]], steps[1]);
      RunSnoc(t0, [steps[0]] + [steps[1]], steps[2]);
      assert [steps[0]][1..] == [];
      o := fs.Mkdir([Root]);
      if o.Failed? {
        return;
      }
      o := fs.Write([Root, "init"], InitFile(prompt));
      if o.Failed? {
        return;
      }
      o := fs.Write([Root, "postinit"], PostInitFile());
    }

    /** The first loop of create_dirs: a directory for every name. */
    method MakeDirs(fs: FileSystem) returns (o: Outcome)
      modifies fs
      requires forall a :: a in monoKeys ==> a in monoStates
      ensures (fs.tree, o) == Run(old(fs.tree), DirCalls(monoKeys, monoStates))
    {
      ghost var t0 := fs.tree;
      o := Done;
      var n := 0;
      while n < |monoKeys|
        invariant 0 <= n <= |monoKeys|
        invariant (fs.tree, o) == Run(t0, DirCalls(monoKeys[..n], monoStates))
        invariant o.Done?
      {
        assert monoKeys[..n + 1][..n] == monoKeys[..n];
        RunSnoc(t0, DirCalls(monoKeys[..n], monoStates), MakeDir([Root, monoStates[monoKeys[n]]]));
        o := fs.Mkdir([Root, monoStates[monoKeys[n]]]);
        if o.Failed? {
          DirCallsPrefix(monoKeys, monoStates, n + 1);
          RunPrefixFailed(t0, DirCalls(monoKeys[..n + 1], monoStates), DirCalls(monoKeys, monoStates));
          return;
        }
        n := n + 1;
      }
      assert monoKeys[..n] == monoKeys;
    }

    /** The second loop of create_dirs: create_symlinks and
        create_tapewriter_file for every named action. */
    method FillDirs(fs: FileSystem) returns (o: Outcome)
      modifies this, fs
      requires NamesValid() && Named(Model())
      ensures Model() == old(Model()) && states == old(states) && monoNum == old(monoNum)
      ensures NamesValid() && Named(Model())
      ensures (fs.tree, o) == Run(old(fs.tree), FillCalls(Model(), monoKeys))
    {
      ghost var t0 := fs.tree;
      o := Done;
      var n := 0;
      while n < |monoKeys|
        invariant Model() == old(Model()) && states == old(states) && monoNum == old(monoNum)
        invariant NamesValid()
        invariant 0 <= n <= |monoKeys|
        invariant (fs.tree, o) == Run(t0, FillCalls(Model(), monoKeys[..n]))
        invariant o.Done?
      {
        assert monoKeys[..n + 1][..n] == monoKeys[..n];
        RunAppend(t0, FillCalls(Model(), monoKeys[..n]), ActionCalls(Model(), monoKeys[n]));
        o := FillOne(fs, monoKeys[n]);
        if o.Failed? {
          FillCallsPrefix(Model(), monoKeys, n + 1);
          RunPrefixFailed(t0, FillCalls(Model(), monoKeys[..n + 1]), FillCalls(Model(), monoKeys));
          return;
        }
        n := n + 1;
      }
      assert monoKeys[..n] == monoKeys;
    }

    /** The body of that loop for one action. */
    method FillOne(fs: FileSystem, a: Action) returns (o: Outcome)
      modifies this, fs
      requires NamesValid() && Named(Model()) && a in monoStates
      ensures Model() == old(Model()) && states == old(states) && monoNum == old(monoNum)
      ensures NamesValid()
      ensures (fs.tree, o) == Run(old(fs.tree), ActionCalls(Model(), a))
    {
      ghost var t0 := fs.tree;
      var name := monoStates[a];
      ghost var links := SymlinkCalls(Model(), a.next, name);
      RunSnoc(t0, links, WriteFile([Root, name, "w"], Tapewriter(finalStates, a)));
      o := CreateSymlinks(fs, a.next, name);
      if o.Failed? {
        return;
      }
      assert [Root, name] + ["w"] == [Root, name, "w"];
      o := CreateTapewriterFile(fs, [Root, name], a.next, a.change1, a.change2);
    }
  }

  /** The names are given to exactly the actions of the table, and there are
      at most nine per state. */
  lemma NamedActions(states: seq<string>, table: map<string, Row>, keys: seq<Action>, names: map<Action, string>)
    requires forall s :: s in states ==> s in table && DistinctKeys(table[s])
    requires Canonical(keys, names) && keys == InternAll([], TableActions(states, table))
    ensures forall a :: a in names <==>
              exists i, k :: 0 <= i < |states| && 0 <= k < |table[states[i]]| && table[states[i]][k].1 == a
    ensures |keys| <= 9 * |states|
  {
    forall a ensures a in names <==>
        exists i, k :: 0 <= i < |states| && 0 <= k < |table[states[i]]| && table[states[i]][k].1 == a
    {
      TableActionsMembers(states, table, a);
    }
    CanonicalCountBound(states, table);
  }

  /** Scanning acts after acts0 continues from the names acts0 left. */
  lemma {:induction false} InternAppend(keys: seq<Action>, acts0: seq<Action>, acts: seq<Action>)
    ensures InternAll(keys, acts0 + acts) == InternAll(InternAll(keys, acts0), acts)
    decreases |acts|
  {
    if acts == [] {
      assert acts0 + acts == acts0;
    } else {
      var front := acts[..|acts| - 1];
      var a := acts[|acts| - 1];
      assert acts0 + acts == (acts0 + front) + [a];
      assert acts == front + [a];
      InternAppend(keys, acts0, front);
      InternSnoc(keys, acts0 + front, a);
      InternSnoc(InternAll(keys, acts0), front, a);
    }
  }

  /** After the scan every action of the table has a name. */
  lemma ScannedNamed(states: seq<string>, table: map<string, Row>, start: seq<Action>,
                     keys: seq<Action>, names: map<Action, string>)
    requires forall s :: s in states ==> s in table
    requires Canonical(keys, names) && keys == InternAll(start, TableActions(states, table))
    ensures forall s :: s in states ==> RowNamed(table[s], names)
  {
    forall s | s in states ensures RowNamed(table[s], names) {
      forall k | 0 <= k < |table[s]| ensures table[s][k].1 in names {
        var i :| 0 <= i < |states| && states[i] == s;
        TableActionsMembers(states, table, table[s][k].1);
      }
    }
  }

  /** The calls of the first k + 1 linkings. */
  lemma LinkingCallsSnoc(ls: seq<Linking>, dir: string, isInitial: bool, k: nat)
    requires k < |ls|
    ensures LinkingCalls(ls[..k + 1], dir, isInitial)
         == LinkingCalls(ls[..k], dir, isInitial) + NameListCalls(ls[k].checknames, ls[k].target, dir, isInitial)
  {
    assert ls[..k + 1][..k] == ls[..k];
  }

  /** The calls of the first m + 1 check names. */
  lemma NameListCallsSnoc(checknames: seq<string>, target: string, dir: string, isInitial: bool, m: nat)
    requires m < |checknames|
    ensures NameListCalls(checknames[..m + 1], target, dir, isInitial)
         == NameListCalls(checknames[..m], target, dir, isInitial) + NameCalls(checknames[m], target, dir, isInitial)
  {
    assert checknames[..m + 1][..m] == checknames[..m];
  }

  /** A failure after the first m check names is the failure of the whole list. */
  lemma NameListStops(t: Tree, checknames: seq<string>, target: string, dir: string, isInitial: bool, m: nat)
    requires m <= |checknames| && Run(t, NameListCalls(checknames[..m], target, dir, isInitial)).1.Failed?
    ensures Run(t, NameListCalls(checknames, target, dir, isInitial))
         == Run(t, NameListCalls(checknames[..m], target, dir, isInitial))
  {
    NameListCallsPrefix(checknames, target, dir, isInitial, m);
    RunPrefixFailed(t, NameListCalls(checknames[..m], target, dir, isInitial), NameListCalls(checknames, target, dir, isInitial));
  }

  /** A failure after the first k linkings is the failure of the whole row. */
  lemma LinkingStops(t: Tree, ls: seq<Linking>, dir: string, isInitial: bool, k: nat)
    requires k <= |ls| && Run(t, LinkingCalls(ls[..k], dir, isInitial)).1.Failed?
    ensures Run(t, LinkingCalls(ls, dir, isInitial)) == Run(t, LinkingCalls(ls[..k], dir, isInitial))
  {
    LinkingCallsPrefix(ls, dir, isInitial, k);
    RunPrefixFailed(t, LinkingCalls(ls[..k], dir, isInitial), LinkingCalls(ls, dir, isInitial));
  }

  /** The calls for one check name: the root link cannot fail, so the
      outcome is that of the link inside dir. */
  lemma NameCallsRun(t: Tree, checkname: string, target: string, dir: string, isInitial: bool)
    ensures var root := MakeLink(target, [Root, checkname], true);
            var inside := MakeLink("../" + target, [Root, dir, checkname], false);
            Run(t, NameCalls(checkname, target, dir, isInitial))
              == if isInitial then Apply(Apply(t, root).0, inside) else Apply(t, inside)
  {
    var root := MakeLink(target, [Root, checkname], true);
    var inside := MakeLink("../" + target, [Root, dir, checkname], false);
    if isInitial {
      assert NameCalls(checkname, target, dir, isInitial) == [root] + [inside];
      RunSnoc(t, [root], inside);
      assert [root][1..] == [];
    } else {
      assert NameCalls(checkname, target, dir, isInitial) == [] + [inside];
      RunSnoc(t, [], inside);
    }
  }

  /** The row a state had before completion; none is the empty row. */
  function OldRow(rows: map<string, Row>, s: string): Row {
    if s in rows then rows[s] else []
  }

  /** The loop of _add_invalid over the states ss: each state's row, or an
      empty one, is completed in turn. */
  function CompleteEach(table: map<string, Row>, ss: seq<string>): map<string, Row>
    decreases |ss|
  {
    if ss == [] then table
    else CompleteEach(table[ss[0] := CompleteRow(OldRow(table, ss[0]))], ss[1..])
  }

  /** Over distinct states, the loop completes exactly the listed states and
      keeps every other row. */
  lemma {:induction false} CompleteEachAt(rows: map<string, Row>, ss: seq<string>, q: string)
    requires Distinct(ss)
    ensures q in CompleteEach(rows, ss) <==> q in rows || q in ss
    ensures q in CompleteEach(rows, ss) ==>
              CompleteEach(rows, ss)[q] == if q in ss then CompleteRow(OldRow(rows, q)) else rows[q]
    decreases |ss|
  {
    if ss != [] {
      var s := ss[0];
      var rest := ss[1..];
      var t1 := rows[s := CompleteRow(OldRow(rows, s))];
      assert Distinct(rest) by {
        forall i, j | 0 <= i < j < |rest| ensures rest[i] != rest[j] {
          assert rest[i] == ss[i + 1] && rest[j] == ss[j + 1];
        }
      }
      assert s !in rest by {
        forall i | 0 <= i < |rest| ensures rest[i] != s {
          assert rest[i] == ss[i + 1];
        }
      }
      assert ss == [s] + rest;
      CompleteEachAt(t1, rest, q);
    }
  }

  /** Over distinct states that cover the table, the loop yields exactly the
      completed table. */
  lemma CompleteEachTable(rows: map<string, Row>, ss: seq<string>)
    requires Distinct(ss) && forall s :: s in rows ==> s in ss
    ensures CompleteEach(rows, ss) == CompletedTable(rows, ss)
  {
    forall q ensures q in CompleteEach(rows, ss) <==> q in ss {
      CompleteEachAt(rows, ss, q);
    }
    forall q | q in CompleteEach(rows, ss) ensures CompleteEach(rows, ss)[q] == CompleteRow(OldRow(rows, q)) {
      CompleteEachAt(rows, ss, q);
    }
    CompletedTableIs(CompleteEach(rows, ss), rows, ss);
  }

  /** A table with one completed row per listed state is the completed table. */
  lemma CompletedTableIs(t: map<string, Row>, rows: map<string, Row>, ss: seq<string>)
    requires forall s :: s in t <==> s in ss
    requires forall s :: s in t ==> t[s] == CompleteRow(OldRow(rows, s))
    ensures t == CompletedTable(rows, ss)
  {
  }

  lemma FillPairsSnoc(row: Row, ps: seq<Pair>, i: nat)
    requires i < |ps|
    ensures FillPairs(row, ps[..i + 1]) == FillPair(FillPairs(row, ps[..i]), ps[i])
  {
    assert ps[..i + 1][..i] == ps[..i];
  }

  /** Completed rows are dicts. */
  lemma CompletedTableDistinct(rows: map<string, Row>, states: seq<string>)
    requires forall s :: s in rows ==> DistinctKeys(rows[s])
    ensures forall s :: s in CompletedTable(rows, states) ==> DistinctKeys(CompletedTable(rows, states)[s])
  {
  }

  lemma DistinctSnoc<T>(s: seq<T>, x: T)
    requires Distinct(s) && x !in s
    ensures Distinct(s + [x])
  {
  }
}
