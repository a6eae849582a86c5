# xterm-primality-test generator, modelled in Dafny

`tools/generator.py` compiles a deterministic two-track Turing machine into a
directory tree that a shell driver walks inside xterm. This project models
that compiler:

- **Terminal** (`terminal.dfy`): the string builders (`clear`, `clear_line`,
  `copy_rect`, `mov_cursor`, `get_checksum`, `checksum`, `mov_left`,
  `mov_right`, `modify_band`, `create_tapewriter`, `init_file`,
  `post_init_file`, `send_message`). Each is a function over strings. The
  numeric formats are written out: decimal for `{n}`, `hex(n)[2:]`, and
  `{n:04X}`. Lemmas pin the control sequences down character by character:
  ED, EL and CUP (sections 8.3.39, 8.3.41 and 8.3.21 of ECMA-48), and DEC's
  DECCRA, DECRQCRA and the DECCKSR reply.
- **Machine** (`machine.dfy`): symbols, actions and rows. A Python dict is
  an association list that keeps insertion order. It also holds the
  completion of a table with the `"invalid"` sink, and the canonical
  numbering of actions (`mono_states` / `mono_num`).
- **FileTree** (`filetree.dfy`): the filesystem, as a map from paths to
  `Dir | File | Link`.
  - The `FileSystem` class is the mutable filesystem. Its methods `Mkdir`,
    `Write` and `Symlink` fail under the same conditions as `os.mkdir`,
    `open(...).write` and `os.symlink`.
  - `Run` folds a list of calls over a tree. The first failure stops it.
- **Layout** (`layout.dfy`): the calls `create_dirs` makes, in order, as a
  list of steps. Lemmas cover the link names (the terminal's checksum
  replies), the link targets, and when the links fail.
- **Output** (`output.dfy`): the tree a whole `create_dirs` run leaves. Once
  it succeeds, `init` and `postinit` hold their programs, and every action
  directory holds its `w` program and a link per check name to the next
  action. When the run starts from an empty tree, each check name of the
  initial state's row is a link at the top of the tree exactly when some
  action leads to the initial state. These links are where the first read
  starts. On an empty tree, the run fails only with the KeyError of an
  action whose next state has no row.
- **Generator** (`generator.dfy`): the `DTuring` class.
  - Its fields are those of the Python object.
  - Its methods are the constructor, `_add_invalid`,
    `_combine_state_with_move`, `s_to_string`, `create_dirs`,
    `create_symlinks` and `create_tapewriter_file`.
  - Each loop carries invariants. Each method is proved against the Machine
    and Layout functions: the tree it leaves and the outcome it returns are
    `Run` of the calls Layout lists.

Python iterates `self.transitions` and `self.mono_states` in insertion order.
The model keeps that order explicitly:

- `states` lists the table's keys in order.
- `monoKeys` lists the named actions in the order they were named.
- Each row is a sequence of `(pair, action)` entries.

## Model

| member | source | states |
|---|---|---|
| Terminal.EraseAndCursorSequences | tools/generator.py:13-26 | `clear()` and `clear_line()` are exactly `ESC[2J` and `ESC[2K`; every `mov_cursor(y, x)` the generator uses (lines 1-5 at column 1, lines 1-3 at column 60, lines 1-2 at column 120) is exactly `ESC[y;xH` |
| Terminal.ChecksumRequestSequences | tools/generator.py:29-30 | `get_checksum(1)` and `get_checksum(2)` request the checksum of the single cell under the head (column WIDTH//2 = 60) with the track number as request id |
| Terminal.ShiftLeftTrack1 | tools/generator.py:38-41 | `mov_right(1)` copies columns 2..120 of track 1 one to the left, moves to column 120 and writes a blank, character for character |
| Terminal.ShiftLeftTrack2 | tools/generator.py:38-41 | `mov_right(2)` does the same on track 2, character for character |
| Terminal.ShiftRightTrack1 | tools/generator.py:44-47 | `mov_left(1)` copies columns 1..119 of track 1 one to the right, moves to column 1 and writes a blank, character for character |
| Terminal.ShiftRightTrack2 | tools/generator.py:44-47 | `mov_left(2)` does the same on track 2, character for character |
| Terminal.AlphabetChecksums | tools/generator.py:33-35 | `checksum(sym, idx)` is `ESC P idx !~ HHHH ESC \` with HHHH = FFD0 for '0', FFCF for '1', FFDD for '#' |
| Terminal.ChecksumInjective | tools/generator.py:33-35 | for a fixed request id, equal checksum replies come from equal characters |
| Terminal.LowerHexInjective | tools/generator.py:133 | `hex(n)[2:]` is injective, so distinct counters give distinct names |
| Terminal.ModifyBandShifts | tools/generator.py:50-56 | `modify_band` with 'L' (resp. 'R') is the plain write followed by `mov_left` (resp. `mov_right`) |
| Terminal.ModifyBandOtherMove | tools/generator.py:52-56 | any move other than 'L' and 'R' appends nothing |
| Terminal.ModifyBandTrack1Bytes | tools/generator.py:50-56 | for every symbol and move, `modify_band(1, sym, mov)` is, character for character, the cursor at (1, 60), the symbol, the cursor at (3, 1), then the right-shift of track 1 for 'L', the left-shift for 'R', nothing otherwise |
| Terminal.ModifyBandTrack2Bytes | tools/generator.py:50-56 | the same for track 2, at (2, 60) |
| Terminal.DefaultTapewriterBytes | tools/generator.py:59-63 | the step program of any action with changes `('#','N'), ('#','N')` whose next state is not final is, character for character, a blank under each head, cursor home and the two checksum requests |
| Terminal.TapewriterRequestsChecksums | tools/generator.py:59-63 | a step program is both tracks' `modify_band` followed by the fixed bytes `ESC[3;1H ESC[1;1;1;60;1;60*y ESC[2;1;2;60;2;60*y` (cursor home and the two checksum requests), the same ending as `post_init_file` |
| Terminal.InitFileLayout | tools/generator.py:66-75 | `init_file(prompt)` clears the screen, paints both tracks with 120 blanks, prints the prompt on line 3 and puts the cursor at (1, 60) |
| Terminal.PostInitFileBytes | tools/generator.py:78-82 | `post_init_file()` is, character for character, the cursor at (3, 60), erase line, `^`, cursor at (3, 1), and the checksum requests for tracks 1 and 2 |
| Terminal.SendMessageLayout | tools/generator.py:85-88 | `send_message(msg)` prints msg left-aligned and space-padded to at least 30 characters, then "Press ^C to close" on line 4 |
| Machine.FillPairs | tools/generator.py:115-119 | the pair loop keeps every existing entry in place, adds exactly the missing pairs, each with the default action, and keeps keys distinct |
| Machine.CompleteRowTotal | tools/generator.py:115-119 | after completion every one of the 9 pairs of ALPHABET × ALPHABET has an entry |
| Machine.CompleteRowKeeps | tools/generator.py:116 | completion leaves every pre-existing entry's action unchanged |
| Machine.CompleteRowDefault | tools/generator.py:116-119 | a pair the row lacked maps to `("invalid", ('#','N'), ('#','N'))` |
| Machine.CompletionRegistersInvalid | tools/generator.py:108-111 | "invalid" ends up in `states` and `final_states`; no other state is added; an existing message for it is kept, otherwise it is "Invalid State, halting"; other messages are unchanged |
| Machine.RowSizeBound | tools/generator.py:115-119 | a row with distinct keys over the alphabet pairs has at most 9 entries |
| Machine.InternAll | tools/generator.py:131-135 | naming a list of actions keeps the earlier keys as a prefix, adds exactly the unseen actions, at most one key per action, and keeps keys distinct |
| Machine.CanonicalInjective | tools/generator.py:131-135 | under the name-dict invariant, distinct actions have distinct names |
| Machine.CanonicalNames | tools/generator.py:131-135 | under the invariant, the names in use are exactly `hex(0)` .. `hex(mono_num - 1)` |
| Machine.TableActionsMembers | tools/generator.py:121-124 | an action occurs in the scan of the table iff some state's row holds it |
| Machine.TableActionsSound | tools/generator.py:121-124 | every action the scan yields comes from some state's row |
| Machine.TableActionsComplete | tools/generator.py:121-124 | every action of every state's row is yielded by the scan |
| Machine.CanonicalCountBound | tools/generator.py:121-124 | the scan of a completed table names at most 9 × \|states\| actions, and strictly fewer when the scan meets some action twice |
| FileTree.Apply | tools/generator.py:145 | a failing call leaves the tree unchanged; a succeeding one adds its path and changes nothing else |
| FileTree.RunLinks | tools/generator.py:161-167 | symlink calls on distinct names succeed iff no name they must create already exists, and then each name holds its link (or the old entry, for a caught error) |
| FileTree.FileSystem.Mkdir | tools/generator.py:145 | `os.mkdir` fails with FileExistsError on an existing path, otherwise creates the directory |
| FileTree.FileSystem.Write | tools/generator.py:176-177 | writing a file fails on a directory, otherwise creates or replaces the file with the content |
| FileTree.FileSystem.Symlink | tools/generator.py:167 | `os.symlink` fails with FileExistsError on an existing name, otherwise creates the link |
| Layout.ReplyIsChecksum | tools/generator.py:33-35 | the reply table used for link names is `checksum(sym, idx)` for each tape symbol |
| Layout.CheckNamesAreChecksums | tools/generator.py:157-160 | the two link names of a pair are `checksum(sym1,1)+checksum(sym2,2)` and `checksum(sym2,2)+checksum(sym1,1)` |
| Layout.CheckNamesDistinct | tools/generator.py:157-160 | a link name determines both its pair and its order, so a row's 9 pairs give 18 distinct names |
| Layout.RowLinkingsUnambiguous | tools/generator.py:155-160 | for a row with distinct keys, no link name occurs twice among its entries |
| Layout.LinkingCallsLength | tools/generator.py:155-167 | a row makes two calls per entry, four for the initial state |
| Layout.LinksSucceed | tools/generator.py:161-167 | the links of a row succeed iff none of the names inside the directory exists; a root name that exists never causes failure |
| Layout.LinksTargets | tools/generator.py:167 | after success each name inside the directory links to `../` + the action's name |
| Layout.RootLinksTargets | tools/generator.py:162-166 | for the initial state each name at the root links to the action's name, unless the name already existed, in which case it is kept |
| Layout.LinksFrame | tools/generator.py:151-167 | the links touch no path except names inside the directory and, for the initial state only, names at the root |
| Layout.SymlinkTargets | tools/generator.py:155-167 | after `create_symlinks(state, dir)` succeeds, both check names of each pair of the state's row link to `../` + the name of the action the row gives for that pair |
| Layout.SymlinkFailure | tools/generator.py:167 | `create_symlinks` on a state with a row fails iff one of the names it makes inside the directory already exists |
| Layout.RowLinkingsNames | tools/generator.py:155-160 | the check names the loop makes are exactly the check names of the row's pairs |
| Layout.DefaultActionHalts | tools/generator.py:169-177 | after completion "invalid" is final, so the default action's `w` is the halt message of "invalid" and differs from the step program of `('#','N'), ('#','N')` |
| Layout.TapewriterCases | tools/generator.py:169-177 | the `w` program is the padded halt message when the next state is final, otherwise both tracks' write and move followed by the checksum requests |
| Layout.CreateDirsRootExists | tools/generator.py:138 | when the root already exists `create_dirs` fails at its first call and changes nothing |
| Output.SymlinkCallsWithin | tools/generator.py:151-167 | `create_symlinks(state, dir)` writes only check names inside `dir` or at the root |
| Output.FillCallsUntouched | tools/generator.py:146-149 | the second loop writes nothing but each action's check names, its `w`, and root check names |
| Output.DirCallsUntouched | tools/generator.py:143-145 | the first loop writes nothing but the action directories |
| Output.NameStart | tools/generator.py:133 | every name is a hex numeral, so it starts with a hex digit and never with ESC, `i` or `p` |
| Output.PrologueMade | tools/generator.py:138-142 | after the first three calls succeed the root is a directory and `init` and `postinit` hold `init_file(prompt)` and `post_init_file()` |
| Output.DirCallsMade | tools/generator.py:143-145 | after the first loop succeeds every named action's path is a directory |
| Output.DirCallsSucceed | tools/generator.py:143-145 | the first loop succeeds when none of the directories exists, the names being distinct |
| Output.FillCallsAt | tools/generator.py:146-149 | inside the second loop, whatever an action's calls leave in its own directory is still there at the end |
| Output.ActionProgram | tools/generator.py:147-149 | once one action's calls succeed, its `w` holds its program |
| Output.ActionLink | tools/generator.py:147-149 | once one action's calls succeed, each check name of its next state's row links to `../` + the target's name; writing `w` after the links does not disturb them |
| Output.CreateDirsFiles | tools/generator.py:137-142 | after `create_dirs` succeeds, `init` holds `init_file(prompt)` and `postinit` holds `post_init_file()` |
| Output.CreateDirsDir | tools/generator.py:137-145 | after `create_dirs` succeeds, every named action's path is a directory |
| Output.CreateDirsProgram | tools/generator.py:146-149 | after `create_dirs` succeeds, each named action's `w` holds the halt message or the tape-rewriting program for that action |
| Output.CreateDirsLinks | tools/generator.py:146-167 | after `create_dirs` succeeds, in each named action's directory both check names of every pair of its next state's row link to `../` + the name of the action the row gives |
| Output.ActionRootKept | tools/generator.py:146-149 | the calls of an action whose next state is not the initial state leave every top-level path as it was |
| Output.InitialRootLink | tools/generator.py:161-166 | `create_symlinks` for the initial state, once it succeeds, leaves each check name of the row at the top: the old entry if one existed, otherwise a link to the name of the row's action |
| Output.ActionRootLink | tools/generator.py:146-166 | the calls of an action leading to the initial state leave each top-level check name linking to the row's action |
| Output.ActionRootStep | tools/generator.py:146-166 | one action's calls keep a top-level check name's link if it was there, and add it when the action leads to the initial state |
| Output.FillRootLinks | tools/generator.py:146-166 | over the second loop, a top-level check name that did not exist ends up present exactly when some action leads to the initial state, linking to the row's action |
| Output.CreateDirsRootLinks | tools/generator.py:137-166 | after `create_dirs` succeeds on an empty tree, each check name of the initial state's row exists at the top exactly when some action leads to the initial state, and then links to the name of the action the row gives (no `../`) |
| Output.ActionOutcome | tools/generator.py:147-149 | one action's calls, on an empty directory, fail exactly when its next state is neither final nor has a row, with that KeyError |
| Output.FillOutcome | tools/generator.py:146-149 | the second loop, on empty directories, fails exactly when some action is stuck so, with that action's KeyError |
| Output.PrologueSucceeds | tools/generator.py:138-142 | the first three calls succeed on an empty tree |
| Output.CreateDirsFromEmpty | tools/generator.py:137-167 | on an empty tree, `create_dirs` fails iff some named action's next state is neither final nor has a row, and then with that state's KeyError; no mkdir, write or link ever clashes |
| Generator.DTuring.constructor | tools/generator.py:92-102 | the object holds the completed states, finals and table, the name dict is canonical, its keys are exactly the table's actions, and there are at most 9 × \|states\| of them |
| Generator.DTuring.AddInvalid | tools/generator.py:107-119 | `_add_invalid` leaves `CompletedStates`, `CompletedFinals` and `CompletedTable` of the old state, and keeps the names |
| Generator.DTuring.CompleteRows | tools/generator.py:112-119 | the state loop replaces the table with its completion over `states`, keeping distinct keys |
| Generator.DTuring.FillRow | tools/generator.py:115-119 | the pair loop over one row returns the completed row |
| Generator.DTuring.SToString | tools/generator.py:131-135 | a known action returns its stored name and changes nothing; a new one is named `hex(mono_num)[2:]`, stored, and `mono_num` goes up by one; the name-dict invariant is kept |
| Generator.DTuring.NameRow | tools/generator.py:123-124 | naming one row's actions is interning them in order, keeping the invariant |
| Generator.DTuring.CombineStateWithMove | tools/generator.py:121-124 | every action of the table gets a name, in scan order, and nothing else changes |
| Generator.NamedActions | tools/generator.py:121-124 | after the scan the named actions are exactly those of the table, at most 9 per state |
| Generator.DTuring.CreateDirs | tools/generator.py:137-149 | the resulting tree and outcome are those of the prologue, one `mkdir` per name, then links and `w` per name, stopping at the first error; the object is unchanged |
| Generator.DTuring.Prologue | tools/generator.py:138-142 | the root `mkdir` and the `init` and `postinit` writes |
| Generator.DTuring.MakeDirs | tools/generator.py:143-145 | one `mkdir` per name, in naming order |
| Generator.DTuring.FillDirs | tools/generator.py:146-149 | `create_symlinks` for the action's next state and `create_tapewriter_file` per name; the later `s_to_string` calls add no name |
| Generator.DTuring.FillOne | tools/generator.py:147-149 | the links then the `w` file of one action's directory |
| Generator.DTuring.CreateSymlinks | tools/generator.py:151-167 | nothing for a final state, a KeyError for a state without a row, otherwise the row's links in order, stopping at the first failure; the names are unchanged |
| Generator.DTuring.LinkRow | tools/generator.py:155-167 | the loop over the row's entries makes each entry's links in order, stopping at the first failure; the names are unchanged |
| Generator.DTuring.LinkEntry | tools/generator.py:157-167 | both check names of one entry, in order |
| Generator.DTuring.LinkName | tools/generator.py:161-167 | one check name: the root link (initial state only, FileExistsError caught), then the link inside the directory |
| Generator.DTuring.CreateTapewriterFile | tools/generator.py:169-177 | writes `Tapewriter(final_states, action)` to `outpath/w` |

## Left out

- The `print` calls (tools/generator.py:103-105, 156) are console output and are not modelled.
- `_validate` (tools/generator.py:126-129) is never called and is not modelled.
- The module-level machine literal and the `machine.create_dirs()` call (tools/generator.py:180-342) are a concrete input and an import-time side effect. They are not modelled.
- What xterm does with the sequences is not modelled: rectangle copies, checksum arithmetic, cursor movement. Only the strings are.
- `transitions.copy()` (tools/generator.py:94) is shallow, so completion also changes the caller's inner dicts. The model uses values and does not capture that aliasing.
- Generator.DTuring.CompleteRows: Python updates each inner dict in place. The model completes a local copy of the row and stores it back. The result is the same; the in-place update and aliasing are not captured.
- Symbols are restricted to ALPHABET (`'0'`, `'1'`, `'#'`): the table keys and the written symbols are drawn from it. `modify_band` keeps any move character.
- Generator.DTuring.CreateDirs: the filesystem is a map from paths to nodes. Parent directories are not checked (no FileNotFoundError), links are never followed, and other OS errors such as permissions are not modelled.
- Layout.CheckNames uses a reply table in place of formatting `0x10000 - ord(sym)`. `Layout.ReplyIsChecksum` proves the two equal.
- The constructor takes the table as its state order and its rows. This stands for a Python dict's key order. Each row must have distinct keys, as a dict does.

Some behaviours of the code are not what a natural design would do. The
model follows the code:

- Which row's links go in a directory. A natural design would put each state's links in its own directory. The code writes into each action's directory the links of that action's next state's row (tools/generator.py:146-148).
- When root links are made. A natural design would make them once, for the initial state. The code makes them while filling every action whose next state is the initial state. A name that already exists at the root is kept.
- Name collisions. A natural design would accept a collision with the same target and reject one with a different target. The code catches every collision at the root and fails on every collision inside a directory, whatever the target (tools/generator.py:162-167).
- Which states are completed. A natural design would also complete the states known only from the final-state map. The code completes only the listed states plus "invalid", so final states get no row.
