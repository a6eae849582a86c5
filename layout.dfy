/**
 * The directory the generator writes: one directory per canonical action,
 * named by the terminal's checksum replies, and the sequence of filesystem
 * calls create_dirs makes to build it.
 */
module Layout {
  import opened Terminal
  import opened Machine
  import opened FileTree

  /** DIR_PREFIX: the directory the generated tree lives in. */
  const Root: string := "src"

  /** The compiled machine create_dirs works from: the completed table, the
      initial state, the final-state messages, the prompt, and the canonical
      names in their insertion order. */
  datatype Compiled = Compiled(
    table: map<string, Row>,
    initial: string,
    finals: map<string, string>,
    prompt: string,
    keys: seq<Action>,
    names: map<Action, string>)

  /** Every action the calls refer to has a name. */
  predicate Named(c: Compiled) {
    && (forall a :: a in c.keys ==> a in c.names)
    && (forall s :: s in c.table ==> RowNamed(c.table[s], c.names))
  }

  predicate RowNamed(row: Row, names: map<Action, string>) {
    forall k :: 0 <= k < |row| ==> row[k].1 in names
  }

  // ---------------------------------------------------------------------------
  // Link names

  /** The four hex digits of the checksum the terminal reports for a cell
      holding the symbol: 0x10000 - ord(sym). */
  function ReplyCode(s: Sym): string {
    match s
    case Zero => "FFD0"
    case One => "FFCF"
    case Blank => "FFDD"
  }

  /** The checksum reply to request idx for a cell holding the symbol. */
  function Reply(s: Sym, idx: nat): string {
    [ESC, 'P'] + Dec(idx) + "!~" + ReplyCode(s) + [ESC, '\\']
  }

  /** Reply is checksum(sym, idx) for each tape symbol. */
  lemma ReplyIsChecksum(s: Sym, idx: nat)
    ensures Reply(s, idx) == Checksum(SymChar(s), idx)
  {
    AlphabetChecksums(idx);
  }

  /** The two names under which a state directory reaches the action for the
      pair: the terminal's replies for track 1 and track 2 in either order. */
  function CheckNames(p: Pair): seq<string> {
    [Reply(p.0, 1) + Reply(p.1, 2), Reply(p.1, 2) + Reply(p.0, 1)]
  }

  /** The check names are checksum(sym1, 1) + checksum(sym2, 2) and
      checksum(sym2, 2) + checksum(sym1, 1). */
  lemma CheckNamesAreChecksums(p: Pair)
    ensures CheckNames(p) ==
      [Checksum(SymChar(p.0), 1) + Checksum(SymChar(p.1), 2),
       Checksum(SymChar(p.1), 2) + Checksum(SymChar(p.0), 1)]
  {
    ReplyIsChecksum(p.0, 1);
    ReplyIsChecksum(p.1, 2);
  }

  /** A reply to request 1 or 2 is 11 characters long and carries its request
      id at position 2. */
  lemma ReplyShape(s: Sym, idx: nat)
    requires idx == 1 || idx == 2
    ensures |Reply(s, idx)| == 11
    ensures Reply(s, idx)[2] == if idx == 1 then '1' else '2'
  {
    SmallDecimals();
  }

  /** For a fixed request id, the reply determines the symbol. */
  lemma ReplyInjective(a: Sym, b: Sym, idx: nat)
    requires Reply(a, idx) == Reply(b, idx)
    ensures a == b
  {
    var pre := [ESC, 'P'] + Dec(idx) + "!~";
    SameSuffixRest(pre + ReplyCode(a), pre + ReplyCode(b), [ESC, '\\']);
    SamePrefixRest(pre, ReplyCode(a), ReplyCode(b));
  }

  /** Two replies concatenated: the pieces are recovered from the whole. */
  lemma ReplyPairInjective(a: Sym, b: Sym, c: Sym, d: Sym, i: nat, j: nat)
    requires (i == 1 && j == 2) || (i == 2 && j == 1)
    requires Reply(a, i) + Reply(b, j) == Reply(c, i) + Reply(d, j)
    ensures a == c && b == d
  {
    var x, y := Reply(a, i), Reply(b, j);
    var u, v := Reply(c, i), Reply(d, j);
    ReplyShape(a, i);
    ReplyShape(c, i);
    assert x == (x + y)[..11] && u == (u + v)[..11];
    assert y == (x + y)[11..] && v == (u + v)[11..];
    ReplyInjective(a, c, i);
    ReplyInjective(b, d, j);
  }

  /** Position 2 of a check name tells which reply comes first. */
  lemma CheckNameMark(p: Pair, i: nat)
    requires i < 2
    ensures |CheckNames(p)[i]| == 22
    ensures CheckNames(p)[i][2] == if i == 0 then '1' else '2'
  {
    ReplyShape(p.0, 1);
    ReplyShape(p.1, 2);
    var a, b := Reply(p.0, 1), Reply(p.1, 2);
    if i == 0 {
      assert CheckNames(p)[i] == a + b;
      assert (a + b)[2] == a[2];
    } else {
      assert CheckNames(p)[i] == b + a;
      assert (b + a)[2] == b[2];
    }
  }

  /** The check names of the nine pairs are eighteen distinct names: a name
      determines both the pair and which of its two orders it is. */
  lemma CheckNamesDistinct(p: Pair, q: Pair, i: nat, j: nat)
    requires i < 2 && j < 2
    requires CheckNames(p)[i] == CheckNames(q)[j]
    ensures p == q && i == j
  {
    CheckNameMark(p, i);
    CheckNameMark(q, j);
    assert i == j;
    if i == 0 {
      ReplyPairInjective(p.0, p.1, q.0, q.1, 1, 2);
    } else {
      ReplyPairInjective(p.1, p.0, q.1, q.0, 2, 1);
    }
  }

  // ---------------------------------------------------------------------------
  // The calls of create_symlinks

  /** What create_symlinks does for one entry of a row: the check names to
      link and the name of the action they lead to. */
  datatype Linking = Linking(checknames: seq<string>, target: string)

  /** The linking of one entry of a row. */
  function EntryLinking(entry: (Pair, Action), names: map<Action, string>): Linking
    requires entry.1 in names
  {
    Linking(CheckNames(entry.0), names[entry.1])
  }

  /** The linkings of a row, entry by entry. */
  function RowLinkings(row: Row, names: map<Action, string>): (ls: seq<Linking>)
    requires RowNamed(row, names)
    ensures |ls| == |row|
  {
    if row == [] then []
    else RowLinkings(row[..|row| - 1], names) + [EntryLinking(row[|row| - 1], names)]
  }

  /** Linking k of a row is that of its entry k. */
  lemma {:induction false} RowLinkingsAt(row: Row, names: map<Action, string>, k: nat)
    requires RowNamed(row, names) && k < |row|
    ensures RowLinkings(row, names)[k] == EntryLinking(row[k], names)
    decreases |row|
  {
    var n := |row| - 1;
    var front := row[..n];
    if k < n {
      RowLinkingsAt(front, names, k);
      assert front[k] == row[k];
      assert RowLinkings(row, names)[k] == RowLinkings(front, names)[k];
    }
  }

  /** Each linking has two check names, and no check name occurs twice. */
  predicate Unambiguous(ls: seq<Linking>) {
    && (forall k :: 0 <= k < |ls| ==> |ls[k].checknames| == 2)
    && (forall k1, i1, k2, i2 ::
          (0 <= k1 < |ls| && 0 <= k2 < |ls| && 0 <= i1 < 2 && 0 <= i2 < 2 &&
           i1 < |ls[k1].checknames| && i2 < |ls[k2].checknames| &&
           ls[k1].checknames[i1] == ls[k2].checknames[i2])
          ==> k1 == k2 && i1 == i2)
  }

  /** The check names of a row name its entries unambiguously. */
  lemma RowLinkingsUnambiguous(row: Row, names: map<Action, string>)
    requires RowNamed(row, names) && DistinctKeys(row)
    ensures Unambiguous(RowLinkings(row, names))
  {
    var ls := RowLinkings(row, names);
    forall k1, i1, k2, i2 |
      0 <= k1 < |ls| && 0 <= k2 < |ls| && 0 <= i1 < 2 && 0 <= i2 < 2 &&
      i1 < |ls[k1].checknames| && i2 < |ls[k2].checknames| &&
      ls[k1].checknames[i1] == ls[k2].checknames[i2]
      ensures k1 == k2 && i1 == i2
    {
      RowLinkingsAt(row, names, k1);
      RowLinkingsAt(row, names, k2);
      CheckNamesDistinct(row[k1].0, row[k2].0, i1, i2);
    }
    forall k | 0 <= k < |ls| ensures |ls[k].checknames| == 2 {
      RowLinkingsAt(row, names, k);
    }
  }

  /** The link inside dir for check name i of linking k. */
  function DirLink(ls: seq<Linking>, dir: string, k: nat, i: nat): Step
    requires k < |ls| && i < |ls[k].checknames|
  {
    MakeLink("../" + ls[k].target, [Root, dir, ls[k].checknames[i]], false)
  }

  /** The root link for check name i of linking k; an existing name is kept. */
  function RootLink(ls: seq<Linking>, k: nat, i: nat): Step
    requires k < |ls| && i < |ls[k].checknames|
  {
    MakeLink(ls[k].target, [Root, ls[k].checknames[i]], true)
  }

  /** The calls for one check name: the root link (initial state only), then
      the link inside dir. */
  function NameCalls(checkname: string, target: string, dir: string, isInitial: bool): seq<Step> {
    (if isInitial then [MakeLink(target, [Root, checkname], true)] else [])
      + [MakeLink("../" + target, [Root, dir, checkname], false)]
  }

  /** The calls for a list of check names, in its order. */
  function NameListCalls(checknames: seq<string>, target: string, dir: string, isInitial: bool): seq<Step> {
    if checknames == [] then []
    else
      NameListCalls(checknames[..|checknames| - 1], target, dir, isInitial)
        + NameCalls(checknames[|checknames| - 1], target, dir, isInitial)
  }

  /** The calls for a sequence of linkings, in order. */
  function LinkingCalls(ls: seq<Linking>, dir: string, isInitial: bool): seq<Step> {
    if ls == [] then []
    else
      var last := ls[|ls| - 1];
      LinkingCalls(ls[..|ls| - 1], dir, isInitial) + NameListCalls(last.checknames, last.target, dir, isInitial)
  }

  /** The calls for a whole row, entry by entry in its order. */
  function RowCalls(row: Row, names: map<Action, string>, dir: string, isInitial: bool): seq<Step>
    requires RowNamed(row, names)
  {
    LinkingCalls(RowLinkings(row, names), dir, isInitial)
  }

  /** create_symlinks(state, dir): nothing for a final state, a KeyError for a
      state without a row, otherwise the links of the state's row. */
  function SymlinkCalls(c: Compiled, state: string, dir: string): seq<Step>
    requires Named(c)
  {
    if state in c.finals then []
    else if state !in c.table then [Raise(KeyError(state))]
    else RowCalls(c.table[state], c.names, dir, state == c.initial)
  }

  /** The calls for a list of two check names. */
  lemma NameListPair(a: string, b: string, target: string, dir: string, isInitial: bool)
    ensures NameListCalls([a, b], target, dir, isInitial)
         == NameCalls(a, target, dir, isInitial) + NameCalls(b, target, dir, isInitial)
  {
    assert [a, b][..1] == [a];
    assert [a][..0] == [];
    assert NameListCalls([a], target, dir, isInitial) == [] + NameCalls(a, target, dir, isInitial);
    assert NameListCalls([a, b], target, dir, isInitial)
        == NameListCalls([a], target, dir, isInitial) + NameCalls(b, target, dir, isInitial);
  }

  /** The calls of the last linking. */
  lemma LastLinking(ls: seq<Linking>, dir: string, isInitial: bool)
    requires Unambiguous(ls) && |ls| > 0
    ensures Unambiguous(ls[..|ls| - 1])
    ensures var last := ls[|ls| - 1];
            var names := last.checknames;
            LinkingCalls(ls, dir, isInitial) == LinkingCalls(ls[..|ls| - 1], dir, isInitial)
              + NameCalls(names[0], last.target, dir, isInitial) + NameCalls(names[1], last.target, dir, isInitial)
  {
    var front := ls[..|ls| - 1];
    var last := ls[|ls| - 1];
    forall k | 0 <= k < |front| ensures front[k] == ls[k] { }
    assert last.checknames == [last.checknames[0], last.checknames[1]];
    NameListPair(last.checknames[0], last.checknames[1], last.target, dir, isInitial);
  }

  /** Two calls per linking, four for the initial state. */
  lemma {:induction false} LinkingCallsLength(ls: seq<Linking>, dir: string, isInitial: bool)
    requires Unambiguous(ls)
    ensures |LinkingCalls(ls, dir, isInitial)| == if isInitial then 4 * |ls| else 2 * |ls|
    decreases |ls|
  {
    if ls != [] {
      LastLinking(ls, dir, isInitial);
      LinkingCallsLength(ls[..|ls| - 1], dir, isInitial);
    }
  }

  /** The links of a state other than the initial one: call 2k + i is the
      link inside dir for check name i of linking k. */
  lemma {:induction false} LinkingCallsAt(ls: seq<Linking>, dir: string, k: nat, i: nat)
    requires Unambiguous(ls) && k < |ls| && i < 2
    ensures |LinkingCalls(ls, dir, false)| == 2 * |ls|
    ensures LinkingCalls(ls, dir, false)[2 * k + i] == DirLink(ls, dir, k, i)
    decreases |ls|
  {
    LinkingCallsLength(ls, dir, false);
    var n := |ls| - 1;
    var front := ls[..n];
    LastLinking(ls, dir, false);
    LinkingCallsLength(front, dir, false);
    if k < n {
      LinkingCallsAt(front, dir, k, i);
      assert front[k] == ls[k];
    }
  }

  /** The links of the initial state: call 4k + 2i is the root link and call
      4k + 2i + 1 the link inside dir for check name i of linking k. */
  lemma {:induction false} InitialLinkingCallsAt(ls: seq<Linking>, dir: string, k: nat, i: nat)
    requires Unambiguous(ls) && k < |ls| && i < 2
    ensures |LinkingCalls(ls, dir, true)| == 4 * |ls|
    ensures LinkingCalls(ls, dir, true)[4 * k + 2 * i] == RootLink(ls, k, i)
    ensures LinkingCalls(ls, dir, true)[4 * k + 2 * i + 1] == DirLink(ls, dir, k, i)
    decreases |ls|
  {
    LinkingCallsLength(ls, dir, true);
    var n := |ls| - 1;
    var front := ls[..n];
    LastLinking(ls, dir, true);
    LinkingCallsLength(front, dir, true);
    if k < n {
      InitialLinkingCallsAt(front, dir, k, i);
      assert front[k] == ls[k];
    }
  }

  /** Splits an index of a row's calls into entry and check name. */
  lemma SplitTwo(j: nat) returns (k: nat, i: nat)
    ensures i < 2 && j == 2 * k + i
  {
    k, i := j / 2, j % 2;
  }

  /** Splits an index of the initial state's calls into entry, check name
      and position (root link or link inside the directory). */
  lemma SplitFour(j: nat) returns (k: nat, i: nat, b: nat)
    ensures i < 2 && b < 2 && j == 4 * k + 2 * i + b
  {
    k := j / 4;
    var r := j % 4;
    i, b := r / 2, r % 2;
  }

  /** Call j of the links, whichever linking and check name it is for, and
      whether it is a root link. */
  lemma CallAt(ls: seq<Linking>, dir: string, isInitial: bool, j: nat)
    returns (k: nat, i: nat, root: bool)
    requires Unambiguous(ls) && j < |LinkingCalls(ls, dir, isInitial)|
    ensures k < |ls| && i < 2 && (root ==> isInitial)
    ensures j == if isInitial then 4 * k + 2 * i + (if root then 0 else 1) else 2 * k + i
    ensures LinkingCalls(ls, dir, isInitial)[j] ==
              if root then RootLink(ls, k, i) else DirLink(ls, dir, k, i)
  {
    LinkingCallsLength(ls, dir, isInitial);
    if isInitial {
      var b;
      k, i, b := SplitFour(j);
      InitialLinkingCallsAt(ls, dir, k, i);
      root := b == 0;
      if root {
        assert j == 4 * k + 2 * i;
      } else {
        assert j == 4 * k + 2 * i + 1;
      }
    } else {
      k, i := SplitTwo(j);
      LinkingCallsAt(ls, dir, k, i);
      root := false;
    }
  }

  /** The links are symlink calls on distinct names. */
  lemma LinkingCallsDistinct(ls: seq<Linking>, dir: string, isInitial: bool)
    requires Unambiguous(ls)
    ensures AllLinks(LinkingCalls(ls, dir, isInitial))
    ensures DistinctPaths(LinkingCalls(ls, dir, isInitial))
  {
    var calls := LinkingCalls(ls, dir, isInitial);
    forall j | 0 <= j < |calls| ensures calls[j].MakeLink? {
      var k, i, root := CallAt(ls, dir, isInitial, j);
    }
    forall a, b | 0 <= a < b < |calls| ensures calls[a].path != calls[b].path {
      var ka, ia, ra := CallAt(ls, dir, isInitial, a);
      var kb, ib, rb := CallAt(ls, dir, isInitial, b);
      var pa, pb := calls[a].path, calls[b].path;
      assert |pa| == (if ra then 2 else 3) && pa[|pa| - 1] == ls[ka].checknames[ia];
      assert |pb| == (if rb then 2 else 3) && pb[|pb| - 1] == ls[kb].checknames[ib];
    }
  }

  /** The index of the link inside the directory for check name i of linking k. */
  function DirIndex(k: nat, i: nat, isInitial: bool): nat {
    if isInitial then 4 * k + 2 * i + 1 else 2 * k + i
  }

  lemma DirCallAt(ls: seq<Linking>, dir: string, isInitial: bool, k: nat, i: nat)
    requires Unambiguous(ls) && k < |ls| && i < 2
    ensures DirIndex(k, i, isInitial) < |LinkingCalls(ls, dir, isInitial)|
    ensures LinkingCalls(ls, dir, isInitial)[DirIndex(k, i, isInitial)] == DirLink(ls, dir, k, i)
  {
    if isInitial {
      InitialLinkingCallsAt(ls, dir, k, i);
    } else {
      LinkingCallsAt(ls, dir, k, i);
    }
  }

  /** The links succeed exactly when none of the names they make inside dir
      exists yet; the root links never make them fail. */
  lemma LinksSucceed(t: Tree, ls: seq<Linking>, dir: string, isInitial: bool)
    requires Unambiguous(ls)
    ensures Run(t, LinkingCalls(ls, dir, isInitial)).1.Done? <==>
            forall k, i :: 0 <= k < |ls| && 0 <= i < 2 ==> [Root, dir, ls[k].checknames[i]] !in t
  {
    var calls := LinkingCalls(ls, dir, isInitial);
    LinkingCallsDistinct(ls, dir, isInitial);
    RunLinks(t, calls);
    if forall k, i :: 0 <= k < |ls| && 0 <= i < 2 ==> [Root, dir, ls[k].checknames[i]] !in t {
      forall j | 0 <= j < |calls| && !calls[j].ignoreExisting ensures calls[j].path !in t {
        var k, i, root := CallAt(ls, dir, isInitial, j);
      }
    } else {
      var k, i :| 0 <= k < |ls| && 0 <= i < 2 && [Root, dir, ls[k].checknames[i]] in t;
      DirCallAt(ls, dir, isInitial, k, i);
    }
  }

  /** After the links succeed, each check name of each linking links, inside
      dir, to "../" + the linking's target. */
  lemma LinksTargets(t: Tree, ls: seq<Linking>, dir: string, isInitial: bool, k: nat, i: nat)
    requires Unambiguous(ls) && k < |ls| && i < 2
    requires Run(t, LinkingCalls(ls, dir, isInitial)).1.Done?
    ensures var r := Run(t, LinkingCalls(ls, dir, isInitial)).0;
            [Root, dir, ls[k].checknames[i]] in r &&
            r[[Root, dir, ls[k].checknames[i]]] == Link("../" + ls[k].target)
  {
    var calls := LinkingCalls(ls, dir, isInitial);
    LinkingCallsDistinct(ls, dir, isInitial);
    RunLinks(t, calls);
    LinksSucceed(t, ls, dir, isInitial);
    DirCallAt(ls, dir, isInitial, k, i);
    var j := DirIndex(k, i, isInitial);
    assert calls[j].path == [Root, dir, ls[k].checknames[i]];
  }

  /** For the initial state each check name is also linked at the top of the
      tree, to the target itself, unless that name was already there. */
  lemma RootLinksTargets(t: Tree, ls: seq<Linking>, dir: string, k: nat, i: nat)
    requires Unambiguous(ls) && k < |ls| && i < 2
    requires Run(t, LinkingCalls(ls, dir, true)).1.Done?
    ensures var r := Run(t, LinkingCalls(ls, dir, true)).0;
            var p := [Root, ls[k].checknames[i]];
            p in r && r[p] == if p in t then t[p] else Link(ls[k].target)
  {
    var calls := LinkingCalls(ls, dir, true);
    LinkingCallsDistinct(ls, dir, true);
    RunLinks(t, calls);
    InitialLinkingCallsAt(ls, dir, k, i);
    assert calls[4 * k + 2 * i] == RootLink(ls, k, i);
  }

  /** The links touch only names inside dir and, for the initial state only,
      names at the top of the tree. */
  lemma LinksFrame(t: Tree, ls: seq<Linking>, dir: string, isInitial: bool, p: Path)
    requires Unambiguous(ls)
    requires !(|p| == 3 && p[0] == Root && p[1] == dir)
    requires !(isInitial && |p| == 2 && p[0] == Root)
    ensures var r := Run(t, LinkingCalls(ls, dir, isInitial)).0;
            (p in r <==> p in t) && (p in t ==> r[p] == t[p])
  {
    var calls := LinkingCalls(ls, dir, isInitial);
    LinkingCallsDistinct(ls, dir, isInitial);
    RunLinksFrame(t, calls);
    forall j | 0 <= j < |calls| ensures calls[j].path != p {
      var k, i, root := CallAt(ls, dir, isInitial, j);
    }
  }

  /** create_symlinks for a state with a row: when it succeeds, both check
      names of every pair of the row link, inside dir, to "../" + the name of
      the action the row gives for that pair. */
  lemma SymlinkTargets(c: Compiled, t: Tree, state: string, dir: string, p: Pair, i: nat)
    requires Named(c) && state !in c.finals && state in c.table && DistinctKeys(c.table[state])
    requires HasKey(c.table[state], p) && i < 2
    requires Run(t, SymlinkCalls(c, state, dir)).1.Done?
    ensures Lookup(c.table[state], p) in c.names
    ensures var r := Run(t, SymlinkCalls(c, state, dir)).0;
            [Root, dir, CheckNames(p)[i]] in r &&
            r[[Root, dir, CheckNames(p)[i]]] == Link("../" + c.names[Lookup(c.table[state], p)])
  {
    var row := c.table[state];
    var ls := RowLinkings(row, c.names);
    var k :| 0 <= k < |row| && row[k].0 == p;
    LookupEntry(row, k);
    RowLinkingsAt(row, c.names, k);
    RowLinkingsUnambiguous(row, c.names);
    LinksTargets(t, ls, dir, state == c.initial, k, i);
  }

  /** The check names of a row's linkings are the check names of its pairs. */
  lemma RowLinkingsNames(row: Row, names: map<Action, string>, t: Tree, dir: string)
    requires RowNamed(row, names)
    ensures forall k :: 0 <= k < |RowLinkings(row, names)| ==> |RowLinkings(row, names)[k].checknames| == 2
    ensures var ls := RowLinkings(row, names);
            (exists k, i :: 0 <= k < |ls| && 0 <= i < 2 && [Root, dir, ls[k].checknames[i]] in t) <==>
            (exists p, i :: HasKey(row, p) && 0 <= i < 2 && [Root, dir, CheckNames(p)[i]] in t)
  {
    var ls := RowLinkings(row, names);
    forall k | 0 <= k < |ls| ensures |ls[k].checknames| == 2 {
      RowLinkingsAt(row, names, k);
    }
    if exists p, i :: HasKey(row, p) && 0 <= i < 2 && [Root, dir, CheckNames(p)[i]] in t {
      var p, i :| HasKey(row, p) && 0 <= i < 2 && [Root, dir, CheckNames(p)[i]] in t;
      var k :| 0 <= k < |row| && row[k].0 == p;
      RowLinkingsAt(row, names, k);
      assert [Root, dir, ls[k].checknames[i]] in t;
    }
    if exists k, i :: 0 <= k < |ls| && 0 <= i < 2 && [Root, dir, ls[k].checknames[i]] in t {
      var k, i :| 0 <= k < |ls| && 0 <= i < 2 && [Root, dir, ls[k].checknames[i]] in t;
      RowLinkingsAt(row, names, k);
      assert HasKey(row, row[k].0);
    }
  }

  /** create_symlinks for a state with a row fails exactly when one of the
      names it makes inside dir already exists. */
  lemma SymlinkFailure(c: Compiled, t: Tree, state: string, dir: string)
    requires Named(c) && state !in c.finals && state in c.table && DistinctKeys(c.table[state])
    ensures Run(t, SymlinkCalls(c, state, dir)).1.Failed? <==>
            exists p, i :: HasKey(c.table[state], p) && 0 <= i < 2 && [Root, dir, CheckNames(p)[i]] in t
  {
    var row := c.table[state];
    var ls := RowLinkings(row, c.names);
    RowLinkingsUnambiguous(row, c.names);
    LinksSucceed(t, ls, dir, state == c.initial);
    RowLinkingsNames(row, c.names, t, dir);
  }

  /** Prefixes of a list of check names give prefixes of its calls. */
  lemma {:induction false} NameListCallsPrefix(checknames: seq<string>, target: string, dir: string, isInitial: bool, m: nat)
    requires m <= |checknames|
    ensures NameListCalls(checknames[..m], target, dir, isInitial) <= NameListCalls(checknames, target, dir, isInitial)
    decreases |checknames|
  {
    if m < |checknames| {
      var front := checknames[..|checknames| - 1];
      assert front[..m] == checknames[..m];
      NameListCallsPrefix(front, target, dir, isInitial, m);
    } else {
      assert checknames[..m] == checknames;
    }
  }

  /** Prefixes of the linkings give prefixes of their calls. */
  lemma {:induction false} LinkingCallsPrefix(ls: seq<Linking>, dir: string, isInitial: bool, k: nat)
    requires k <= |ls|
    ensures LinkingCalls(ls[..k], dir, isInitial) <= LinkingCalls(ls, dir, isInitial)
    decreases |ls|
  {
    if k < |ls| {
      var front := ls[..|ls| - 1];
      assert front[..k] == ls[..k];
      LinkingCallsPrefix(front, dir, isInitial, k);
    } else {
      assert ls[..k] == ls;
    }
  }

  // ---------------------------------------------------------------------------
  // create_tapewriter_file and create_dirs

  /** The program written for an action: the halt message when its next
      state is final, otherwise the step program for its two changes. */
  function Tapewriter(finals: map<string, string>, a: Action): string {
    if a.next in finals then SendMessage(finals[a.next])
    else CreateTapewriter(SymChar(a.change1.sym), a.change1.move, SymChar(a.change2.sym), a.change2.move)
  }

  /** A halting action shows its message padded to 30 columns; any other
      action rewrites both tracks and then asks for the two new checksums,
      as the postinit program does. */
  lemma TapewriterCases(finals: map<string, string>, a: Action)
    ensures a.next in finals ==>
      var msg := finals[a.next];
      var pad := if |msg| < 30 then 30 - |msg| else 0;
      Tapewriter(finals, a) == MovCursor(3, 1) + msg + Repeat(' ', pad)
                               + MovCursor(4, 1) + "Press ^C to close" + MovCursor(5, 1)
    ensures a.next !in finals ==>
      Tapewriter(finals, a) == ModifyBand(1, SymChar(a.change1.sym), a.change1.move)
                               + ModifyBand(2, SymChar(a.change2.sym), a.change2.move) + ChecksumRequests()
  {
    if a.next in finals {
      SendMessageLayout(finals[a.next]);
    } else {
      TapewriterRequestsChecksums(SymChar(a.change1.sym), a.change1.move, SymChar(a.change2.sym), a.change2.move);
    }
  }

  /** Completion always makes "invalid" final, so the default action's `w`
      holds the halt message of "invalid", never the step program of its
      changes ('#','N'), ('#','N'). */
  lemma DefaultActionHalts(finals: map<string, string>)
    ensures Tapewriter(CompletedFinals(finals), DefaultAction) == SendMessage(CompletedFinals(finals)[Invalid])
    ensures Tapewriter(CompletedFinals(finals), DefaultAction) != CreateTapewriter('#', 'N', '#', 'N')
  {
    EraseAndCursorSequences();
    var halt := Tapewriter(CompletedFinals(finals), DefaultAction);
    var step := CreateTapewriter('#', 'N', '#', 'N');
    assert halt[2] == '3' by {
      assert halt[..|MovCursor(3, 1)|] == MovCursor(3, 1);
    }
    assert step[2] == '1' by {
      assert step[..|MovCursor(1, WIDTH / 2)|] == MovCursor(1, WIDTH / 2);
    }
  }

  /** The start of create_dirs: the tree's root, then the init and postinit programs. */
  function PrologueCalls(prompt: string): seq<Step> {
    [MakeDir([Root]), WriteFile([Root, "init"], InitFile(prompt)), WriteFile([Root, "postinit"], PostInitFile())]
  }

  /** One directory per named action, in the order the names were given. */
  function DirCalls(keys: seq<Action>, names: map<Action, string>): seq<Step>
    requires forall a :: a in keys ==> a in names
  {
    if keys == [] then []
    else DirCalls(keys[..|keys| - 1], names) + [MakeDir([Root, names[keys[|keys| - 1]]])]
  }

  /** The links and the program file of one action's directory. */
  function ActionCalls(c: Compiled, a: Action): seq<Step>
    requires Named(c) && a in c.names
  {
    SymlinkCalls(c, a.next, c.names[a]) + [WriteFile([Root, c.names[a], "w"], Tapewriter(c.finals, a))]
  }

  /** The second pass of create_dirs over the named actions. */
  function FillCalls(c: Compiled, keys: seq<Action>): seq<Step>
    requires Named(c) && forall a :: a in keys ==> a in c.names
  {
    if keys == [] then []
    else FillCalls(c, keys[..|keys| - 1]) + ActionCalls(c, keys[|keys| - 1])
  }

  /** Every call create_dirs makes, in order. */
  function CreateDirsCalls(c: Compiled): seq<Step>
    requires Named(c)
  {
    PrologueCalls(c.prompt) + DirCalls(c.keys, c.names) + FillCalls(c, c.keys)
  }

  lemma {:induction false} DirCallsPrefix(keys: seq<Action>, names: map<Action, string>, n: nat)
    requires n <= |keys| && forall a :: a in keys ==> a in names
    ensures DirCalls(keys[..n], names) <= DirCalls(keys, names)
    decreases |keys|
  {
    if n < |keys| {
      var front := keys[..|keys| - 1];
      assert front[..n] == keys[..n];
      DirCallsPrefix(front, names, n);
    } else {
      assert keys[..n] == keys;
    }
  }

  lemma {:induction false} FillCallsPrefix(c: Compiled, keys: seq<Action>, n: nat)
    requires n <= |keys| && Named(c) && forall a :: a in keys ==> a in c.names
    ensures FillCalls(c, keys[..n]) <= FillCalls(c, keys)
    decreases |keys|
  {
    if n < |keys| {
      var front := keys[..|keys| - 1];
      assert front[..n] == keys[..n];
      FillCallsPrefix(c, front, n);
    } else {
      assert keys[..n] == keys;
    }
  }

  /** create_dirs on a tree whose root already exists fails at its first
      call and leaves the tree as it was. */
  lemma CreateDirsRootExists(c: Compiled, t: Tree)
    requires Named(c) && [Root] in t
    ensures Run(t, CreateDirsCalls(c)) == (t, Failed(FileExists([Root])))
  {
    var pre := PrologueCalls(c.prompt);
    RunAppend(t, pre + DirCalls(c.keys, c.names), FillCalls(c, c.keys));
    RunAppend(t, pre, DirCalls(c.keys, c.names));
  }
}
