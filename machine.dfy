/**
 * The two-track machine description the generator compiles: symbols, actions,
 * transition rows, the completion of a table with the "invalid" sink, and the
 * canonical (hash-consed) numbering of actions.
 */
module Machine {
  import opened Terminal

  /** ALPHABET = ['0', '1', '#']. */
  datatype Sym = Zero | One | Blank

  function SymChar(s: Sym): char {
    match s
    case Zero => '0'
    case One => '1'
    case Blank => '#'
  }

  type Pair = (Sym, Sym)

  /** product(ALPHABET, ALPHABET), in the order itertools produces it. */
  const AllPairs: seq<Pair> := [
    (Zero, Zero), (Zero, One), (Zero, Blank),
    (One, Zero), (One, One), (One, Blank),
    (Blank, Zero), (Blank, One), (Blank, Blank)
  ]

  /** What one transition writes on a track and how that track moves
      ('L', 'R'; any other character is no move). */
  datatype Change = Change(sym: Sym, move: char)

  /** (next_state, (sym1, mov1), (sym2, mov2)). */
  datatype Action = Action(next: string, change1: Change, change2: Change)

  const Invalid: string := "invalid"
  const InvalidMessage: string := "Invalid State, halting"

  /** The action every missing pair is completed with. */
  const DefaultAction: Action := Action(Invalid, Change(Blank, 'N'), Change(Blank, 'N'))

  /** One state's transitions, in the insertion order of the source's dict. */
  type Row = seq<(Pair, Action)>

  predicate HasKey(row: Row, p: Pair) {
    exists k :: 0 <= k < |row| && row[k].0 == p
  }

  /** A dict has each key once. */
  predicate DistinctKeys(row: Row) {
    forall i, j :: 0 <= i < j < |row| ==> row[i].0 != row[j].0
  }

  predicate Distinct<T(==)>(s: seq<T>) {
    forall i, j :: 0 <= i < j < |s| ==> s[i] != s[j]
  }

  function Lookup(row: Row, p: Pair): (a: Action)
    requires HasKey(row, p)
    ensures (p, a) in row
  {
    if row[0].0 == p then row[0].1 else Lookup(row[1..], p)
  }

  /** In a row whose keys are distinct, every entry is what a lookup finds. */
  lemma {:induction false} LookupEntry(row: Row, k: nat)
    requires DistinctKeys(row) && k < |row|
    ensures HasKey(row, row[k].0) && Lookup(row, row[k].0) == row[k].1
  {
    if k > 0 {
      assert row[0].0 != row[k].0;
      assert row[1..][k - 1] == row[k];
      LookupEntry(row[1..], k - 1);
    }
  }

  /** Appending entries does not change what an existing key finds. */
  lemma {:induction false} LookupInPrefix(row: Row, rest: Row, p: Pair)
    requires HasKey(row, p)
    ensures HasKey(row + rest, p) && Lookup(row + rest, p) == Lookup(row, p)
  {
    var k :| 0 <= k < |row| && row[k].0 == p;
    assert (row + rest)[k].0 == p;
    if row[0].0 != p {
      assert row[1..][k - 1].0 == p;
      assert (row + rest)[1..] == row[1..] + rest;
      LookupInPrefix(row[1..], rest, p);
    }
  }

  /** A key that is not in the prefix is found in the appended part. */
  lemma {:induction false} LookupInSuffix(row: Row, rest: Row, p: Pair)
    requires !HasKey(row, p) && HasKey(rest, p)
    ensures HasKey(row + rest, p) && Lookup(row + rest, p) == Lookup(rest, p)
  {
    var k :| 0 <= k < |rest| && rest[k].0 == p;
    assert (row + rest)[|row| + k].0 == p;
    if row != [] {
      assert row[0].0 != p;
      assert (row + rest)[1..] == row[1..] + rest;
      assert !HasKey(row[1..], p) by {
        forall j | 0 <= j < |row[1..]| ensures row[1..][j].0 != p {
          assert row[1..][j] == row[j + 1];
        }
      }
      LookupInSuffix(row[1..], rest, p);
    } else {
      assert row + rest == rest;
    }
  }

  // ---------------------------------------------------------------------------
  // Completion of the table

  /** One pair of the completion loop: add the default only when the pair is missing. */
  function FillPair(row: Row, p: Pair): Row {
    if HasKey(row, p) then row else row + [(p, DefaultAction)]
  }

  /** The completion loop over the pairs ps, in order. */
  function FillPairs(row: Row, ps: seq<Pair>): (r: Row)
    ensures |row| <= |r| && r[..|row|] == row
    ensures forall p :: HasKey(r, p) <==> HasKey(row, p) || p in ps
    ensures forall k :: |row| <= k < |r| ==> r[k].1 == DefaultAction && !HasKey(row, r[k].0)
    ensures DistinctKeys(row) ==> DistinctKeys(r)
    decreases |ps|
  {
    if ps == [] then row
    else
      var before := FillPairs(row, ps[..|ps| - 1]);
      var p := ps[|ps| - 1];
      assert ps == ps[..|ps| - 1] + [p];
      assert forall q :: HasKey(before + [(p, DefaultAction)], q) <==> HasKey(before, q) || q == p by {
        forall q ensures HasKey(before + [(p, DefaultAction)], q) <==> HasKey(before, q) || q == p {
          if HasKey(before + [(p, DefaultAction)], q) && q != p {
            var k :| 0 <= k < |before| + 1 && (before + [(p, DefaultAction)])[k].0 == q;
            assert before[k].0 == q;
          }
          if HasKey(before, q) {
            var k :| 0 <= k < |before| && before[k].0 == q;
            assert (before + [(p, DefaultAction)])[k].0 == q;
          }
          if q == p {
            assert (before + [(p, DefaultAction)])[|before|].0 == q;
          }
        }
      }
      FillPair(before, p)
  }

  /** The completed row of a state: every pair of the alphabet gets an entry. */
  function CompleteRow(row: Row): Row {
    FillPairs(row, AllPairs)
  }

  lemma AllPairsComplete(p: Pair)
    ensures p in AllPairs
  {
    match p
    case (Zero, Zero) => assert AllPairs[0] == p;
    case (Zero, One) => assert AllPairs[1] == p;
    case (Zero, Blank) => assert AllPairs[2] == p;
    case (One, Zero) => assert AllPairs[3] == p;
    case (One, One) => assert AllPairs[4] == p;
    case (One, Blank) => assert AllPairs[5] == p;
    case (Blank, Zero) => assert AllPairs[6] == p;
    case (Blank, One) => assert AllPairs[7] == p;
    case (Blank, Blank) => assert AllPairs[8] == p;
  }

  /** After completion every one of the nine pairs has an entry. */
  lemma CompleteRowTotal(row: Row, p: Pair)
    ensures HasKey(CompleteRow(row), p)
  {
    AllPairsComplete(p);
  }

  /** Completion keeps every entry the row already had. */
  lemma CompleteRowKeeps(row: Row, p: Pair)
    requires HasKey(row, p)
    ensures HasKey(CompleteRow(row), p) && Lookup(CompleteRow(row), p) == Lookup(row, p)
  {
    var r := CompleteRow(row);
    assert r == row + r[|row|..];
    LookupInPrefix(row, r[|row|..], p);
  }

  /** A row extended by default entries looks up every new key to the default. */
  lemma SuffixDefault(row: Row, r: Row, p: Pair)
    requires |row| <= |r| && r[..|row|] == row
    requires forall k :: |row| <= k < |r| ==> r[k].1 == DefaultAction
    requires !HasKey(row, p) && HasKey(r, p)
    ensures Lookup(r, p) == DefaultAction
  {
    var rest := r[|row|..];
    assert r == row + rest;
    var k :| 0 <= k < |r| && r[k].0 == p;
    assert rest[k - |row|].0 == p;
    LookupInSuffix(row, rest, p);
    var j :| 0 <= j < |rest| && rest[j] == (p, Lookup(rest, p));
    assert r[|row| + j] == rest[j];
  }

  /** A pair the row lacked is completed with ("invalid", ('#','N'), ('#','N')). */
  lemma CompleteRowDefault(row: Row, p: Pair)
    requires !HasKey(row, p)
    ensures HasKey(CompleteRow(row), p) && Lookup(CompleteRow(row), p) == DefaultAction
  {
    CompleteRowTotal(row, p);
    SuffixDefault(row, CompleteRow(row), p);
  }

  /** The state list after completion: "invalid" is appended unless present. */
  function CompletedStates(states: seq<string>): seq<string> {
    if Invalid in states then states else states + [Invalid]
  }

  /** The final-state messages after completion. */
  function CompletedFinals(finals: map<string, string>): map<string, string> {
    if Invalid in finals then finals else finals[Invalid := InvalidMessage]
  }

  /** The completed table: every listed state gets its completed row; a state
      without a row starts from the empty one. */
  function CompletedTable(rows: map<string, Row>, states: seq<string>): map<string, Row> {
    map s | s in states :: CompleteRow(if s in rows then rows[s] else [])
  }

  /** "invalid" ends up a state and a final state; only it is added, and other
      messages stay as they were. */
  lemma CompletionRegistersInvalid(states: seq<string>, finals: map<string, string>)
    ensures Invalid in CompletedStates(states) && Invalid in CompletedFinals(finals)
    ensures forall s :: s in CompletedStates(states) <==> s in states || s == Invalid
    ensures CompletedFinals(finals)[Invalid] == if Invalid in finals then finals[Invalid] else InvalidMessage
    ensures forall s :: s in finals && s != Invalid ==> s in CompletedFinals(finals) && CompletedFinals(finals)[s] == finals[s]
    ensures CompletedFinals(finals).Keys == finals.Keys + {Invalid}
  {
  }

  // ---------------------------------------------------------------------------
  // Canonical numbering of actions (mono-states)

  /** One s_to_string call on the key order of the name dict. */
  function Intern(keys: seq<Action>, a: Action): seq<Action> {
    if a in keys then keys else keys + [a]
  }

  /** s_to_string applied to every action of acts, in order. */
  function InternAll(keys: seq<Action>, acts: seq<Action>): (r: seq<Action>)
    ensures |keys| <= |r| <= |keys| + |acts| && r[..|keys|] == keys
    ensures forall a :: a in r <==> a in keys || a in acts
    ensures Distinct(keys) ==> Distinct(r)
    decreases |acts|
  {
    if acts == [] then keys
    else
      var before := InternAll(keys, acts[..|acts| - 1]);
      var a := acts[|acts| - 1];
      assert acts == acts[..|acts| - 1] + [a];
      Intern(before, a)
  }

  /** The name dict: mono_num == |keys|, keys distinct, and the i-th inserted
      action is named hex(i)[2:]. */
  ghost predicate Canonical(keys: seq<Action>, names: map<Action, string>) {
    && Distinct(keys)
    && (forall a :: a in names <==> a in keys)
    && (forall i :: 0 <= i < |keys| ==> names[keys[i]] == LowerHex(i))
  }

  /** Distinct actions get distinct names. */
  lemma CanonicalInjective(keys: seq<Action>, names: map<Action, string>, a: Action, b: Action)
    requires Canonical(keys, names)
    requires a in names && b in names && names[a] == names[b]
    ensures a == b
  {
    var i :| 0 <= i < |keys| && keys[i] == a;
    var j :| 0 <= j < |keys| && keys[j] == b;
    LowerHexInjective(i, j);
  }

  /** The names in use are exactly hex(0) .. hex(mono_num - 1). */
  lemma CanonicalNames(keys: seq<Action>, names: map<Action, string>, name: string)
    requires Canonical(keys, names)
    ensures name in names.Values <==> exists i :: 0 <= i < |keys| && name == LowerHex(i)
  {
    if name in names.Values {
      var a :| a in names && names[a] == name;
      var i :| 0 <= i < |keys| && keys[i] == a;
    }
    if i :| 0 <= i < |keys| && name == LowerHex(i) {
      assert names[keys[i]] == name;
    }
  }

  /** The actions of a row, in its order. */
  function RowActions(row: Row): (acts: seq<Action>)
    ensures |acts| == |row|
    ensures forall k :: 0 <= k < |row| ==> acts[k] == row[k].1
  {
    if row == [] then [] else RowActions(row[..|row| - 1]) + [row[|row| - 1].1]
  }

  /** Every action of the table, state by state in the given order. */
  function TableActions(states: seq<string>, table: map<string, Row>): seq<Action>
    requires forall s :: s in states ==> s in table
  {
    if states == [] then []
    else TableActions(states[..|states| - 1], table) + RowActions(table[states[|states| - 1]])
  }

  /** One more action at the end of a scan is one more s_to_string call. */
  lemma InternSnoc(keys: seq<Action>, acts: seq<Action>, a: Action)
    ensures InternAll(keys, acts + [a]) == Intern(InternAll(keys, acts), a)
  {
    assert (acts + [a])[..|acts|] == acts;
  }

  /** The actions of the first k + 1 entries of a row. */
  lemma RowActionsSnoc(row: Row, k: nat)
    requires k < |row|
    ensures RowActions(row[..k + 1]) == RowActions(row[..k]) + [row[k].1]
  {
    assert row[..k + 1][..k] == row[..k];
  }

  /** The scan of the first n + 1 states. */
  lemma TableActionsSnoc(states: seq<string>, table: map<string, Row>, n: nat)
    requires n < |states| && forall s :: s in states ==> s in table
    ensures TableActions(states[..n + 1], table) == TableActions(states[..n], table) + RowActions(table[states[n]])
  {
    assert states[..n + 1][..n] == states[..n];
  }

  /** Every action of the scan comes from some state's row. */
  lemma {:induction false} TableActionsSound(states: seq<string>, table: map<string, Row>, a: Action)
    requires forall s :: s in states ==> s in table
    requires a in TableActions(states, table)
    ensures exists i, k :: 0 <= i < |states| && 0 <= k < |table[states[i]]| && table[states[i]][k].1 == a
  {
    var front := states[..|states| - 1];
    var ra := RowActions(table[states[|states| - 1]]);
    if a in TableActions(front, table) {
      TableActionsSound(front, table, a);
      var i, k :| 0 <= i < |front| && 0 <= k < |table[front[i]]| && table[front[i]][k].1 == a;
      assert states[i] == front[i];
    } else {
      var k :| 0 <= k < |ra| && ra[k] == a;
      assert table[states[|states| - 1]][k].1 == a;
    }
  }

  /** Every action of every state's row is in the scan. */
  lemma {:induction false} TableActionsComplete(states: seq<string>, table: map<string, Row>, a: Action, i: nat, k: nat)
    requires forall s :: s in states ==> s in table
    requires i < |states| && k < |table[states[i]]| && table[states[i]][k].1 == a
    ensures a in TableActions(states, table)
    decreases |states|
  {
    var front := states[..|states| - 1];
    var ra := RowActions(table[states[|states| - 1]]);
    if i < |front| {
      assert front[i] == states[i];
      TableActionsComplete(front, table, a, i, k);
    } else {
      assert ra[k] == a;
    }
  }

  /** An action occurs in the scan iff some state's row holds it. */
  lemma TableActionsMembers(states: seq<string>, table: map<string, Row>, a: Action)
    requires forall s :: s in states ==> s in table
    ensures a in TableActions(states, table) <==>
            exists i, k :: 0 <= i < |states| && 0 <= k < |table[states[i]]| && table[states[i]][k].1 == a
  {
    if a in TableActions(states, table) {
      TableActionsSound(states, table, a);
    }
    if exists i, k :: 0 <= i < |states| && 0 <= k < |table[states[i]]| && table[states[i]][k].1 == a {
      var i, k :| 0 <= i < |states| && 0 <= k < |table[states[i]]| && table[states[i]][k].1 == a;
      TableActionsComplete(states, table, a, i, k);
    }
  }

  /** The set of row keys of a row. */
  function KeySet(row: Row): set<Pair> {
    set k | 0 <= k < |row| :: row[k].0
  }

  /** A dict over pairs of the alphabet has at most nine entries. */
  lemma {:induction false} RowSizeBound(row: Row)
    requires DistinctKeys(row)
    ensures |KeySet(row)| == |row| <= 9
  {
    if row != [] {
      var front := row[..|row| - 1];
      RowSizeBound(front);
      KeySetSnoc(row);
      var everything: set<Pair> := set p | p in AllPairs;
      AllPairsSize();
      assert KeySet(row) <= everything by {
        forall q | q in KeySet(row) ensures q in everything {
          AllPairsComplete(q);
        }
      }
      SubsetSize(KeySet(row), everything);
    }
  }

  lemma KeySetSnoc(row: Row)
    requires DistinctKeys(row) && row != []
    ensures KeySet(row) == KeySet(row[..|row| - 1]) + {row[|row| - 1].0}
    ensures row[|row| - 1].0 !in KeySet(row[..|row| - 1])
  {
    var front := row[..|row| - 1];
    var last := row[|row| - 1].0;
    forall q | q in KeySet(row) ensures q in KeySet(front) + {last} {
      var k :| 0 <= k < |row| && row[k].0 == q;
      if k < |row| - 1 { assert front[k] == row[k]; }
    }
    forall q | q in KeySet(front) ensures q in KeySet(row) {
      var k :| 0 <= k < |front| && front[k].0 == q;
      assert row[k] == front[k];
    }
  }

  lemma AllPairsSize()
    ensures |set p | p in AllPairs| == 9
  {
    assert Distinct(AllPairs);
    DistinctSize(AllPairs);
  }

  /** A sequence without repetitions has as many elements as its set. */
  lemma {:induction false} DistinctSize<T>(s: seq<T>)
    requires Distinct(s)
    ensures |set x | x in s| == |s|
  {
    if s != [] {
      var front := s[..|s| - 1];
      DistinctSize(front);
      assert (set x | x in s) == (set x | x in front) + {s[|s| - 1]} by {
        assert s == front + [s[|s| - 1]];
      }
      assert s[|s| - 1] !in front;
    }
  }

  lemma {:induction false} SubsetSize<T>(a: set<T>, b: set<T>)
    requires a <= b
    ensures |a| <= |b|
    decreases b
  {
    if a != {} {
      var x :| x in a;
      SubsetSize(a - {x}, b - {x});
    }
  }

  /** The scan visits at most nine actions per state. */
  lemma {:induction false} TableActionsSize(states: seq<string>, table: map<string, Row>)
    requires forall s :: s in states ==> s in table && DistinctKeys(table[s])
    ensures |TableActions(states, table)| <= 9 * |states|
  {
    if states != [] {
      TableActionsSize(states[..|states| - 1], table);
      RowSizeBound(table[states[|states| - 1]]);
    }
  }

  /** A sequence has at least as many entries as its set. */
  lemma {:induction false} SetOfSize<T>(s: seq<T>)
    ensures |set x | x in s| <= |s|
  {
    if s != [] {
      var front := s[..|s| - 1];
      SetOfSize(front);
      assert (set x | x in s) == (set x | x in front) + {s[|s| - 1]} by {
        assert s == front + [s[|s| - 1]];
      }
    }
  }

  /** A sequence with a repeated entry has strictly more entries than its set. */
  lemma RepeatSize<T>(s: seq<T>, i: nat, j: nat)
    requires i < j < |s| && s[i] == s[j]
    ensures |set x | x in s| < |s|
  {
    var rest := s[..j] + s[j + 1..];
    assert (set x | x in s) == (set x | x in rest) by {
      assert s == s[..j] + [s[j]] + s[j + 1..];
      assert rest[i] == s[j];
    }
    SetOfSize(rest);
  }

  /** The canonical actions of a table number at most nine per state, and
      strictly fewer when the scan meets some action twice. */
  lemma CanonicalCountBound(states: seq<string>, table: map<string, Row>)
    requires forall s :: s in states ==> s in table && DistinctKeys(table[s])
    ensures |InternAll([], TableActions(states, table))| <= 9 * |states|
    ensures (exists i, j :: 0 <= i < j < |TableActions(states, table)|
                           && TableActions(states, table)[i] == TableActions(states, table)[j])
            ==> |InternAll([], TableActions(states, table))| < 9 * |states|
  {
    var acts := TableActions(states, table);
    var r := InternAll([], acts);
    TableActionsSize(states, table);
    if i, j :| 0 <= i < j < |acts| && acts[i] == acts[j] {
      assert Distinct(r);
      DistinctSize(r);
      assert (set x | x in r) == (set x | x in acts);
      RepeatSize(acts, i, j);
    }
  }
}
