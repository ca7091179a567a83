# Verified model of the algorithms of mcsh

mcsh is a fork of tcsh. This project states, in Dafny, what the self-contained algorithms of its line editor and
its builtins do, and proves the properties they are for. C code that changes buffers, linked nodes or shared pointers
is modelled by methods over arrays and classes; each is proved against functions on sequences, and the properties are
proved about those functions. All statements hold for inputs of any size.

`dafny verify dfyconfig.toml` checks everything.

| files | part of mcsh |
|---|---|
| Terminal, UpdateLine, Differ, Emit, Refresh | the screen differ of ed.refresh.c on the terminal primitives of ed.screen.c |
| Layout, DrawLine | Draw, Vdraw, CalcPosition and RefCursor of ed.refresh.c |
| Screen | Refresh of ed.refresh.c, from the input line to the screen |
| Sequences | optional values and sequences, for all models |
| PathCanon, DirCanon | dcanon_internal and dgoto of sh.dir.c, in one character buffer |
| DirStack, DirLinks, DirRing | the directory stack of sh.dir.c, a circular doubly linked list with a sentinel |
| GlobLang, GlobCompile, GlobMatch, GlobPaths, GlobSegments, GlobWalk, GlobMeaning | the pattern compiler, matcher and directory walk of glob.c |
| KeyTrie, XkeyMap | the extended-key trie of ed.xmap.c |
| ExprSyntax, ExprValue, ExprEval, ExprMeaning | the expression evaluator of sh.exp.c |
| LockProtocol, DotLock | the lock protocol of dotlock.c |
| KillList, KillRing, LineEdit | the kill ring, the input buffer and vi undo of ed.chared.c |
| CommandHash | the command hash of sh.exec.c |
| LruList, CommandCache | the cache of command verdicts of ed.syntax.c |

## How the terminal is modelled

A row is a sequence of TermH single-column cells. The terminal has its own cursor and its own cells; the editor's
CursorH and CursorV and its record Display are separate. "The editor knows where the cursor is" is therefore a property
(InSync), and "a cursor move that rewrites the record changes nothing" is one too. putraw, so_write and the motion
strings act on the terminal; insertion loses what passes the margin and deletion brings in blanks. The row shown for a
text is the text padded with blanks (Fit).

## Where code and promise differ

The model follows the code. Each difference is a lemma with the failing inputs and, where there is a promise to keep,
the exact condition under which it is kept.

- ClearEOL without the string ce counts CursorH up without the wrap of so_write. update_line always leaves the right
  row, but then no longer knows the cursor, if and only if it blanks up to the right margin; whether it does is a
  function of the terminal and the two texts, CursorLost (Emit.UpdateLine, Emit.EmptyingLosesCursor,
  Emit.KeepsCursor). Refresh is proved for all rows that keep the cursor; with ce these are all rows.
- MoveToChar masks CursorH with 0370 when it computes tabs, so that from column 256 on it sends too many. It is right
  in the end only where the tabs stop at the last column and that is the target (TerminalIO.TabCount,
  TerminalIO.Terminal.MoveToChar, Emit.TabsOvershoot). The differ is proved for tabs on screens up to 256 columns.
- CalcPosition passes one margin at most and lets a tab cross it: it agrees with what is drawn if and only if neither
  happens (Layout.StepAgrees, Layout.TabBeyondMargin).
- savedirs set to k saves k + 1 entries, and these are the bottom of the stack rather than the top
  (DirStack.ScriptRestores; tcsh.man.in:9354-9361 promises at most k).
- After a rotating pushd +n the sentinel no longer stands behind the displayed stack. $dirstack[1] is then not the
  current directory and -n does not count from the bottom (DirStack.BottomCount, DirStack.DirstackShown;
  tcsh.man.in:8058-8071 promises the first). Setting dirstack keeps the current directory on top and puts all words
  below it, so that setting it to its own value lists that directory twice (DirRing.Ring.SetToItself).
- In a bracket of a glob pattern the lower end of a range is an element of its own, so that [b-a] takes b
  (GlobCompile.RangeKeepsLowEnd, GlobCompile.EmptyRangeTakes), and an unclosed bracket is an ordinary character
  (GlobCompile.UnclosedIsLiteral). A slash inside a bracket ends the segment for the walk but not for the compiler: the walk finds
  the paths of the pattern if no set mentions a slash, and otherwise none of them, so that it is right only where there
  are none (GlobSegments.SegmentEndsAgree, GlobWalk.Glob, GlobWalk.BracketSlash).
- A negation in front of a pattern negates each segment with metacharacters and no other, where tcsh.man.in:2835
  promises the negation of the entire pattern: a path that matches in some of these segments only passes neither
  (GlobPaths.NegatedBySegment, GlobPaths.NegationIsComplement, GlobPaths.NeitherFits).
- A directory of the path that can be searched but not read is skipped by dohash, and the hashed search then skips its
  commands (CommandHash.UnreadableHides, CommandHash.FreshAgrees).
- iscommand computes the hash value of a name once, before the label it returns to after a rehash. If the rebuilt table
  has another length, the second pass looks into the wrong bucket or behind the table, and the command can be missed
  with autorehash set (CommandHash.StaleFinds, CommandHash.StaleMisses, CommandHash.ShrunkPath).
- The cache of command verdicts keeps 63 characters of a name: longer names that agree there share a verdict
  (CommandCache.SameKey).
- bindkey -r can take the last key away while a character is still bound to the lead-in command (tc.bind.c:152-159);
  TraverseMap then starts from no node (XkeyMap.Xmap.GetXkey).
- Operands that || or && skip are still parsed as numbers, and can still fail; the evaluation
  succeeds if and only if none of them does (ExprValue.SkippedOperandFails, ExprValue.EvalSucceeds). Shifts do
  not chain without compat_expr: the second of two << is read as a less-than sign (ExprSyntax.ShiftsDoNotChain).
- If the reply to a link that was made is lost, the lock file stays, held by nobody, for good
  (LockProtocol.LostReplySticks, LockProtocol.StuckForever). With truthful replies this cannot happen
  (LockProtocol.NeverLeftBehind); exactly when a lock file outlives its owner in any run is
  LockProtocol.OutlivesOwner.
- Resizing a kill ring that is not full to at least its number of entries replaces the oldest entry by a slot without a
  buffer (KillList.ResizeKeeps, KillRing.Ring.SetKillRing).
- With killdup=all, killing a text that is already in the ring but not on top and yanking gives another text
  (KillList.LastPushed, LineEdit.Killer.KillYank).

## Model

| member | source | states |
|---|---|---|
| TerminalIO.Terminal.SoWrite | ed.screen.c:1327-1451 | n cells go over (or, in insert mode, into) the row at the cursor and no other row; the editor's cursor wraps as the terminal's does, so it stays in step whenever the cells fit the row; n <= 0 or n > TermH writes nothing |
| TerminalIO.TabCount | ed.screen.c:1286-1299 | the masked tab arithmetic is exact below column 256 and always too large from there on |
| TerminalIO.Terminal.MoveToChar | ed.screen.c:1253-1324 | the cursor is where the editor takes it to be, for every target column and capability, if and only if the tabs do not overshoot, or stop at the last column where that is the target; the cells stay as they are, and after an overshoot they are those with the cells up to the target written from the column the tabs led to |
| TerminalIO.Terminal.MoveToLine | ed.screen.c:1196-1250 | the cursor arrives at the row and no cell changes if the rows crossed by rewriting their last cell are on record |
| TerminalIO.Terminal.InsertWrite | ed.screen.c:1496-1546 | on each of the IC, im/ei and ic paths, up to and at the right margin: the cells are inserted at the cursor, what passes the margin is lost, the cursor is behind them or wrapped, and insert mode is off again |
| TerminalIO.Terminal.DeleteChars | ed.screen.c:1455-1491 | on the DC and the dc path: num cells go at the cursor and blanks come in at the margin |
| TerminalIO.Terminal.ClearEOL | ed.screen.c:1550-1564 | with ce the rest of the row is blank and the cursor stays; without it num blanks are written and CursorH is counted up without the wrap |
| Cells.ReplaceGrow | ed.refresh.c:1002-1022 | inserting the difference in length and overwriting the rest turns a in front of y into the longer b |
| Cells.ReplaceShrink | ed.refresh.c:1046-1068 | deleting the difference in length and overwriting turns a in front of y into the shorter b |
| RowPlan.FindFirstDiff | ed.refresh.c:719-725 | the loop stops behind the longest common prefix of both texts |
| RowPlan.FindLastSame | ed.refresh.c:769-783 | the longest common tail that does not reach over the first difference |
| RowPlan.ScanMatch | ed.refresh.c:793-835 | the scan ends with the span of the fold Scanned over all places of the other row |
| RowPlan.FindPlan | ed.refresh.c:769-921 | for all rows and capabilities the final pointers are PlanOf of the two texts |
| RowPlan.ScanIsLongest | ed.refresh.c:793-835 | the match found is the longest of those longer than half the distance they are shifted by, or the one at hand if that is as long |
| RowPlan.InsertsAvoided | ed.refresh.c:871-886 | with the fx and sx computed beforehand, no insertion is left to do after the pointers have moved |
| RowPlan.DeletesAvoided | ed.refresh.c:887-902 | the same for deletions, and it brings no insertion back |
| RowPlan.PlanIsSound | ed.refresh.c:769-921 | for all texts and capabilities prefix, match and tail are equal text, and no insertion or deletion is planned that the terminal cannot do, though fx and sx are stale |
| Emit.PlanLine | ed.refresh.c:719-921 | trimming and searching come to the plan of the trimmed texts, or to no difference only when these are equal |
| Differ.StrInsert | ed.refresh.c:606-644 | the record of the row follows an insertion of as many cells as there is room for, with what passes dlen lost |
| Differ.StrDelete | ed.refresh.c:648-676 | the record of the row follows a deletion |
| Differ.StrCp | ed.refresh.c:679-684 | the record of the row follows an overwrite that stops at the first NUL |
| Differ.CpyPadSpaces | ed.refresh.c:1234-1250 | the record is the text padded with blanks to the margin |
| Differ.InsertAndWrite | ed.refresh.c:1002-1022 | a stretch of the screen row becomes the longer one, what is behind it moves right, no other row changes |
| Differ.DeleteAndWrite | ed.refresh.c:1046-1068 | a stretch of the screen row becomes the shorter one, what is behind it moves left |
| Differ.WriteAndClear | ed.refresh.c:1069-1085 | the end of the row is replaced; the cursor is known afterwards if and only if ce is there, nothing is left to blank, or the blanks end before the margin |
| Emit.GoTo | ed.refresh.c:998-1196 | every cursor move inside update_line leaves the screen alone, because the cells of old up to the target are those on the screen |
| Emit.EarlyInsert | ed.refresh.c:991-1034 | the early first insert: the row shows the new first part, nothing useful is pushed over the margin, and old follows |
| Emit.FirstDelete | ed.refresh.c:1035-1086 | the first difference when it shrinks, with or without something to keep behind it |
| Emit.SecondDelete | ed.refresh.c:1090-1138 | the second difference when it shrinks, before or after the first was dealt with |
| Emit.LateInsert | ed.refresh.c:1140-1187 | the first insert when it was put off, or an overwrite of equal length |
| Emit.SecondInsert | ed.refresh.c:1192-1227 | the second difference when it does not shrink: the row is the new one |
| Emit.KeptPlace | ed.refresh.c:785-921 | a match that is not shifted cannot exist, so fx == 0 implies sx == 0: no late overwrite follows a lost cursor |
| Emit.EmitEdits | ed.refresh.c:991-1227 | from a row showing old, all edits together leave it showing new |
| Emit.UpdateLine | ed.refresh.c:711-1231 | for all old and new rows up to TermH cells and all capabilities: afterwards the screen row is the new row padded with blanks, no other row has changed, and the editor knows the cursor if and only if CursorLost is false of the terminal and the two texts |
| Emit.EmptyingLosesCursor | ed.screen.c:1550-1564 | update_line to an empty text loses the cursor if and only if there is no ce and the row is full to the margin with a cell that is not trimmed |
| Emit.KeepsCursor | ed.refresh.c:711-1231 | with ce, or room for both texts, or a new text up to the margin, no two texts make update_line lose the cursor |
| Emit.TabsOvershoot | ed.screen.c:1287-1299 | a cell is added to a row with the cursor at column 256 or further: the first move of update_line goes too far, unless it goes to the last column |
| Refresh.RefreshRow | ed.refresh.c:551-562 | one turn of the line loop, for a row that keeps the cursor, shows the row and puts it on record |
| Refresh.ClearRow | ed.refresh.c:567-572 | a row no longer used is blank and off the record |
| Refresh.RefreshLines | ed.refresh.c:540-583 | with a way up, and ce or rows that keep the cursor: the screen shows exactly the rows of Vdisplay, the rows used before are blank, all others are untouched, and the cursor is where the input line wants it |
| Layout.StepAgrees | ed.refresh.c:1252-1281 | one character is counted as it is drawn if and only if it passes at most one margin and a tab stops at the margin at the latest |
| Layout.LineAgrees | ed.refresh.c:1252-1281 | for every line, on screens wide enough and of a multiple of eight columns if there are tabs, the counted position is the drawn one across any number of wraps |
| Layout.TabBeyondMargin | ed.refresh.c:1259-1262 | on every other width a tab in the last column is counted wrong |
| Layout.AddGlyphEnd | ed.refresh.c:210-281 | the virtual cursor is at the end of the rows laid out so far |
| Layout.AddGlyphFlat | ed.refresh.c:210-281 | read row by row the display is the old text followed by the cells of the character: no cell is lost at a margin |
| Layout.ShownAs | ed.refresh.c:214-243 | whatever is shown already, a printable character adds itself, a control character a caret and its letter, a byte that cannot be shown a backslash and its digits, a tab blanks to the next multiple of eight or the margin, a newline nothing |
| Layout.LineShows | ed.refresh.c:210-281 | this holds of every character of a line, with what those in front of it show |
| Layout.NewlineSplits | ed.refresh.c:215-219 | the rows of a line are those of the part in front of a newline followed by those of the part behind it |
| Layout.RowsAreFull | ed.refresh.c:283-321 | without a newline all rows but the last are full |
| Layout.TextIsShown | ed.refresh.c:257-281 | printable ASCII text is shown as it is |
| Layout.Octal | ed.refresh.c:238-243 | the three digits shown are those of the byte in base eight |
| Layout.OneKey | ed.refresh.c:214-243 | each byte but tab and newline, as the C locale classifies them, gives the row ^X, itself, ^? or a backslash and three octal digits |
| DrawLine.VDisplay.Vdraw | ed.refresh.c:283-321 | one cell is added to the rows in the buffer, which are closed by a NUL at the margin |
| DrawLine.VDisplay.Draw | ed.refresh.c:166-281 | a character of any class is added to the rows in the buffer |
| DrawLine.DrawInput | ed.refresh.c:492-516 | the buffer holds prompt and input laid out, and the noted position is that of the cursor |
| DrawLine.RefCursor | ed.refresh.c:1288-1306 | the position counted over prompt and input |
| DrawLine.SameCursor | ed.refresh.c:504-516 | RefCursor comes to the position Refresh notes |
| Screen.Compose | ed.refresh.c:492-541 | the display holds prompt and input laid out in rows, each closed by a NUL, and the terminal is as it was |
| Screen.RefreshScreen | ed.refresh.c:474-583 | end to end, for every prompt and input, and whatever the screen showed before as long as no row loses the cursor: the rows of the screen are those of the layout padded with blanks, rows used before are blank, all others are untouched, and the real cursor stands where the layout has the insertion point |
| Screen.ShowKey | ed.refresh.c:474-583 | after a refresh of one key the first row of the screen is exactly that row, padded with blanks, with the cursor behind it |
| Screen.RefCursor | ed.refresh.c:1285-1312 | the cursor goes to the counted position and nothing is drawn; where counting and drawing agree this is where Refresh would put it |
| PathCanon.CanonicalPrefix | sh.dir.c:566-601 | a canonical first part can be skipped: the whole path leads where the rest leads from its stack |
| PathCanon.CanonIdempotent | sh.dir.c:977-1158 | canonical names are their own canonical form |
| PathCanon.ParentUndoes | sh.dir.c:1013-1091 | a component and the .. behind it can be left out of any absolute name, wherever they stand |
| PathCanon.ParentOfRoot | sh.dir.c:1078-1091 | the parent of the root is the root |
| PathCanon.DotIsNothing | sh.dir.c:1002-1012 | a . can be left out wherever it stands |
| PathCanon.SlashesAreOne | sh.dir.c:977-983 | of several slashes all but one can be left out wherever they stand |
| PathCanon.ComponentStays | sh.dir.c:1092-1157 | an ordinary component behind a canonical name stays |
| DirCanon.FlushSlashes | sh.dir.c:978-983 | extra slashes are gone from the buffer and nothing else |
| DirCanon.CutComponent | sh.dir.c:984-992 | the component is found and cut off by a NUL |
| DirCanon.Dot | sh.dir.c:1004-1014 | the component . is taken out in place |
| DirCanon.DotDot | sh.dir.c:1015-1091 | the component .. takes its predecessor out in place, or stays at the root |
| DirCanon.Turn | sh.dir.c:977-1158 | one turn of the loop enters one component; buffer, pointer and stack stay in step and the rest gets shorter |
| DirCanon.Canonicalize | sh.dir.c:977-1158 | for every path with a canonical part before p, the loop ends and the buffer holds exactly the rendering of the component stack |
| DirCanon.CanonTwice | sh.dir.c:977-1158 | the result of canonicalising any path is canonical |
| DirCanon.JoinCwd | sh.dir.c:569-588 | the name of the current directory and the argument, joined, with p behind the first |
| DirCanon.Dgoto | sh.dir.c:566-601 | the result is the canonical form of the whole path, though only the argument is gone through |
| DirCanon.Goto | sh.dir.c:565-602 | from any directory, a name leads below it, .. to its parent and from the root to the root, . to itself, and an absolute name to its own canonical form |
| DirLinks.CutOut | sh.dir.c:755-756 | unlinking an entry leaves a well formed chain without it |
| DirRing.Ring.PutOnTop | sh.dir.c:787-790 | the new entry is in front of the current one; the ring stays well formed |
| DirRing.Ring.DNewCwd | sh.dir.c:1238-1254 | the entry is current; with dunique its twin nearest to the sentinel is gone and nothing else |
| DirRing.Ring.DFind | sh.dir.c:800-842 | +n is the entry n down the displayed stack or too deep; -n the entry n from the sentinel, never the current one |
| DirRing.Ring.Extract | sh.dir.c:1370-1381 | extracting moves the entry to the front of the displayed stack and keeps the order of the rest |
| DirRing.Ring.SwapTop | sh.dir.c:744-761 | bare pushd exchanges the top two, or fails on a single entry and changes nothing |
| DirRing.Ring.Pushd | sh.dir.c:719-793 | every pushd keeps the ring well formed and does to the displayed stack what it should: cons, swap, rotate, or extract; failures change nothing |
| DirStack.PushMeans | sh.dir.c:719-793 | on the displayed stack t: no argument swaps its top two, +n gives t[n..] + t[..n] or with dextract t[n] in front of the others, -n does this with the entry n in front of the sentinel, and when each fails |
| DirStack.TwinGoes | sh.dir.c:1243-1253 | with dunique set the other entry with the name of the top goes, and the rest stays in its order |
| DirRing.Ring.Popd | sh.dir.c:848-887 | popd drops the top, or the entry named, or fails and changes nothing |
| DirStack.PopMeans | sh.dir.c:848-887 | on the displayed stack: the top goes, or the entry at +n or -n and no other, and when each fails |
| DirRing.Ring.Chngd | sh.dir.c:488-563 | cd replaces the top, or leaves it for an entry below, which becomes the top |
| DirStack.ChangeMeans | sh.dir.c:488-563 | on the displayed stack: the top is replaced, or for +n and -n left for the entry meant, which comes to the top by a turn of the others, and when each fails |
| DirRing.Ring.Clear | sh.dir.c:230-240 | dirs -c leaves only the current directory |
| DirRing.Ring.PrintDirs | sh.dir.c:257-292 | exactly the displayed stack, in order, is printed |
| DirRing.Ring.GetStack | sh.dir.c:1313-1331 | $dirstack is the ring read from the sentinel |
| DirRing.Ring.SetStack | sh.dir.c:1278-1310 | setting dirstack leaves the current directory on top and puts every word up to the first empty one below it |
| DirRing.Ring.SetToItself | sh.dir.c:1278-1310 | setting dirstack to its own value lists the current directory twice |
| DirRing.Ring.RecDirs | sh.dir.c:1456-1471 | the script has the entries of the displayed stack from the bottom up, one more than savedirs at most |
| DirRing.Ring.Load | sh.dir.c:1390-1404 | sourcing a script, up to the first directory that cannot be reached, does to the ring what its lines do to the displayed stack, also under dunique if its names were distinct |
| DirStack.ScriptRestores | sh.dir.c:1406-1471 | replayed from a one-entry stack the script restores the stack if and only if savedirs is unset or at least the number of entries less one; otherwise it restores the bottom savedirs + 1 entries; with dunique set the same holds for distinct names |
| DirStack.PushedDistinct | sh.dir.c:1243-1252 | with dunique set pushd keeps the names of the stack distinct |
| DirStack.ChangedDistinct | sh.dir.c:1243-1252 | the same for cd |
| DirStack.PoppedDistinct | sh.dir.c:1243-1252 | the same for popd |
| DirStack.BottomCount | sh.dir.c:795-834 | -n counts from the bottom of the displayed stack if and only if the current entry is the one behind the sentinel |
| DirStack.DirstackShown | sh.dir.c:1313-1331 | $dirstack is the displayed stack in the same case only |
| GlobLang.StarUnfolds | glob.c:718-726 | what a star means one character at a time |
| GlobLang.LastStarSuffices | glob.c:696-781 | once a second star is reached, whatever the first could still match the second can: remembering the last star loses nothing |
| GlobMatch.MatchSet | glob.c:733-764 | the scan of a set decides whether the set, negated or not, takes the character, and ends behind it wherever the segment ends |
| GlobMatch.Match | glob.c:696-781 | the loop ends for every segment of a compiled pattern; for a segment that is compiled from tokens, and every name without slash and NUL, it answers whether the name is in their language |
| GlobCompile.CopyQuoted | glob.c:327-356 | the buffer holds the pattern with quoted characters marked |
| GlobCompile.CompileSet | glob.c:362-388 | a closed set is compiled in place to the items it stands for; an unclosed bracket is an ordinary character |
| GlobCompile.CompileTurn | glob.c:360-408 | one turn writes behind the read pointer and keeps tokens read plus characters unread equal to the pattern |
| GlobCompile.Compile | glob.c:358-409 | for every pattern the writer never passes the reader and the buffer holds the encoding of the tokens with adjacent stars collapsed; magic is set just for patterns with metacharacters |
| GlobCompile.CollapseKeeps | glob.c:393-403 | collapsing adjacent stars keeps the language |
| GlobCompile.CompilePattern | glob.c:320-409 | a negation in front is noted, and what follows is compiled to a pattern with the language of the pattern as written |
| GlobCompile.QuotingIsLiteral | glob.c:327-352 | a pattern with every character quoted is not negated and matches exactly its own text |
| GlobMeaning.StarMeans | glob.c:398-403 | a star between two quoted texts: the names that start with the one, end with the other and are long enough for both |
| GlobMeaning.QuestionMeans | glob.c:389-392 | a question mark between them: exactly one character between them |
| GlobMeaning.BracketMeans | glob.c:356-388 | a bracket around one character: that character between them |
| GlobMeaning.NotBracketMeans | glob.c:356-388 | the same negated, by ^ or ! as the mode says: any other single character |
| GlobMeaning.RangeMeans | glob.c:374-388 | a range: any character from its lower to its upper end, and its lower end |
| GlobMeaning.EscapedIs | glob.c:320-347 | quoting puts a backslash in front of every character |
| GlobCompile.RangeKeepsLowEnd | glob.c:745-763 | a range takes what lies between its ends if and only if these are in order, and otherwise its lower end alone |
| GlobCompile.EmptyRangeTakes | glob.c:381-388 | the set [b-a] takes b |
| GlobCompile.UnclosedIsLiteral | glob.c:362-372 | a bracket that nothing closes is an ordinary character |
| GlobWalk.Walker.Glob2 | glob.c:482-538 | if no set mentions a slash, the walk from a path adds each existing path that fits the rest of the pattern once, and nothing else; every path added has all slashes that the walk has seen |
| GlobWalk.Walker.Glob3 | glob.c:560-653 | the same through the entries of one directory, under the leading dot rule |
| GlobWalk.Glob | glob.c:289-474 | end to end, for every pattern, negated or not, and finite tree: if no set mentions a slash the paths found are, once each, exactly the existing ones whose components pass the pattern as written segment by segment; otherwise none of those is found |
| GlobMeaning.StarFits | glob.c:619-649 | the paths of a star between two quoted texts are the names of that form, and a star in front does not find a leading period unless told to |
| GlobMeaning.GlobStar | glob.c:320-649 | glob on a star between two quoted texts finds exactly the existing names of that form |
| GlobPaths.CollapseFits | glob.c:393-403 | collapsing stars keeps the paths a pattern stands for |
| GlobSegments.SegmentEndsAgree | glob.c:518-525 | the ends of segments that glob2 finds are those of the tokens if and only if no set mentions a slash |
| GlobSegments.SepsOfEncode | glob.c:518-530 | glob2 sees at least the slashes of the tokens, and no others if and only if no set mentions one |
| GlobSegments.FitsCount | glob.c:511-542 | a path that a pattern stands for has as many slashes as the pattern |
| GlobWalk.BracketSlash | glob.c:518-525 | the pattern [a/b] does not find a file a, which it matches |
| GlobPaths.NegatedBySegment | glob.c:643-645 | a pattern asks for a match in every segment with metacharacters, a negated pattern for one in none, and segments without are not negated |
| GlobPaths.NegationIsComplement | glob.c:643-645 | of the paths that have the components of the pattern, a negated pattern stands for those the pattern does not stand for if and only if all or none of its segments with metacharacters match, and there is one |
| GlobPaths.NeitherFits | glob.c:643-645 | the path x/b passes neither the pattern of the segments a* and b* nor its negation |
| KeyTrie.PrefixFree | ed.xmap.c:209-299 | no bound key is a proper prefix of another |
| KeyTrie.AddKeyRefines | ed.xmap.c:209-299 | adding a key binds it, drops every proper prefix and every extension, changes nothing else, and leaves no childless node unbound |
| KeyTrie.DeleteKeyRefines | ed.xmap.c:312-373 | deleting drops exactly the keys that start with the given one, prunes dead ancestors and brings nothing back |
| KeyTrie.TraverseReads | ed.xmap.c:171-206 | reading finds the binding of the one key that starts the input, and the end of the input just where a key is unfinished |
| XkeyMap.XmapNode.TryNode | ed.xmap.c:234-299 | the nodes are changed in place as the trie is |
| XkeyMap.TryDeleteNode | ed.xmap.c:331-373 | nodes are unlinked in place as the trie says |
| XkeyMap.TraverseMap | ed.xmap.c:171-206 | the walk over the nodes reads what the trie says, and *ch->buf is the last character or NUL |
| XkeyMap.Xmap.AddXkey | ed.xmap.c:209-231 | the map of all bindings after an addition, which refuses empty keys and the lead-in command |
| XkeyMap.Xmap.DeleteXkey | ed.xmap.c:312-329 | the map of all bindings after a deletion, and the status |
| XkeyMap.Xmap.GetXkey | ed.xmap.c:160-168 | the result is the binding of the unique key that prefixes the input; the walk starts from no node if and only if nothing is bound |
| ExprSyntax.ShiftsDoNotChain | sh.exp.c:391-427 | without compat_expr, a << b << c reads as (a << b) < c |
| ExprSyntax.OperatorWords | sh.exp.c:992-1039 | for every word and level exactly which words are operators and with which code; any word that starts with < or > is a relation |
| ExprValue.IgnoredRunsNothing | sh.exp.c:575-594 | an expression evaluated with the ignore bit runs no block |
| ExprValue.EvalMeans | sh.exp.c:186-231 | an evaluation that raises no error gives the value of the short-circuit reading and runs exactly the blocks that reading needs, in order |
| ExprValue.SkippedOperandFails | sh.exp.c:302-343 | an ignored operand that is no number is an error although &#124;&#124; does not need it |
| ExprValue.EvalSucceeds | sh.exp.c:186-343 | the evaluation raises no error if and only if the short-circuit reading has none and every skipped operand evaluates under the ignore bit |
| ExprEval.TailErrN | sh.exp.c:186-300 | an error in what was read stays one however the level goes on |
| ExprEval.Evaluator.Exp0 | sh.exp.c:186-207 | for every word list, ignore bit, no-glob bit, compat_expr mode and environment: the result is the evaluation of the tree read from the words, and the word position reached is the end of that tree, which depends on words, no-glob bit and mode alone |
| ExprEval.Evaluator.Exp1 | sh.exp.c:209-231 | the same at the level of && |
| ExprEval.Evaluator.Exp2c | sh.exp.c:302-343 | the same at the comparisons, with the no-glob bit set behind =~ and !~ |
| ExprEval.Evaluator.Exp3 | sh.exp.c:345-389 | the same at < > <= >= |
| ExprEval.Evaluator.Exp3a | sh.exp.c:391-427 | the same at the shifts, which take one right side |
| ExprEval.Evaluator.Exp4 | sh.exp.c:429-471 | the same at + and - |
| ExprEval.Evaluator.Exp5 | sh.exp.c:473-537 | the same at * / %; behind =~ the sign itself is the operand |
| ExprEval.Evaluator.ExpBrace | sh.exp.c:575-594 | a block is found to its brace, and run unless ignored |
| ExprEval.Evaluator.Filetest | sh.exp.c:615-691 | a file test takes two words, ignored or not |
| ExprEval.Evaluator.Exp6 | sh.exp.c:539-608 | the same at the operands |
| ExprEval.Evaluator.Expr | sh.exp.c:180-184 | an expression that can be read and does no harm where it is skipped comes to its short-circuit value, with the blocks run that it needs; every other one to an error |
| ExprMeaning.Arithmetic | sh.exp.c:346-471 | for any two numbers +, - and * come to the integer result taken modulo 2^64 into the signed range, and <, >, <= and >= to 1 or 0 as the relation holds or not |
| ExprMeaning.Division | sh.exp.c:474-537 | / and % come to the quotient towards zero and a rest with the sign of the dividend; a divisor of 0 is an error, and -1 negates, modulo 2^64, with the rest 0 |
| ExprMeaning.Shifts | sh.exp.c:392-427 | << comes to the product with a power of two modulo 2^64, >> to the quotient rounded down, and both to 0 for counts outside 0 to 63 |
| ExprMeaning.Powers | sh.exp.c:411-420 | the factor of a shift is 1 for the count 0 and doubles with each further step |
| ExprMeaning.Sameness | sh.exp.c:303-343 | == and != compare the words, =~ and !~ match the left one with the right one, which is not globbed |
| ExprMeaning.Logical | sh.exp.c:186-231 | two numbers and either of the logical operators come to 1 or 0, and so do three with both in either order, where the and binds closer, with and without compat_expr |
| ExprMeaning.Unary | sh.exp.c:540-574 | ! comes to 1 for 0 and to 0 otherwise, ~ turns all bits, and parentheses keep the value |
| ExprMeaning.Blocks | sh.exp.c:186-231 | of two blocks with a logical operator between them the second is run only if the status of the first leaves it open; the value is 1 if the last one run ended with status 0 and 0 otherwise, and both are on record in order |
| ExprMeaning.Precedence | sh.exp.c:430-537 | a product is taken before a sum on either side of it, and of two differences the left one is taken first, but with compat_expr the right one |
| LockProtocol.LinkCount | dotlock.c:102-116 | the own inode has two links if and only if it is the lock |
| LockProtocol.StepSafe | dotlock.c:48-185 | every step of every process keeps the invariant: who has read two links, or holds the lock, owns the lock file |
| LockProtocol.MutualExclusion | dotlock.c:48-185 | in every interleaving of any number of processes at most one is between a successful dot_lock and its dot_unlock, whatever open and link report |
| LockProtocol.LostReplySticks | dotlock.c:96-101 | a link that was made but reported as failed leaves a lock that nobody holds |
| LockProtocol.StuckForever | dotlock.c:127-176 | and from then on no run of any processes ever gets it |
| LockProtocol.NeverLeftBehind | dotlock.c:48-185 | while calls report truly and nobody crashes, the lock file exists only as long as its owner is taking or holding it |
| LockProtocol.StepOrphans | dotlock.c:48-185 | a step leaves the lock without an owner if and only if it is a link reported as failed, a failed stat behind it, a failed unlink of dot_unlock or the owner's end, or it was without one and its maker does not come back to it |
| LockProtocol.OutlivesOwner | dotlock.c:48-185 | after any run a lock file has outlived its owner if and only if the last such step left it behind |
| LockProtocol.AloneGetsIt | dotlock.c:48-125 | a process alone at a free lock gets it |
| DotLock.Process.CreateExclusive | dotlock.c:47-125 | under any interference success means holding and failure holding nothing; the steps taken are up to five opens, while these report that the name is taken, then the link, the stat if the link is reported as made, and the unlink; the result is what the link reported if not that it was made, that the lock is taken if the links counted are not two, and otherwise success |
| DotLock.Process.DotLock | dotlock.c:127-176 | after success this process and no other owns the lock; with a poll interval it does not return while its last link reported that the lock is taken or its last count was not two; all tries but the last came to this, and none of their opens failed |
| DotLock.Process.DotUnlock | dotlock.c:178-185 | nobody owns the lock afterwards, its file is gone if and only if unlink works, and nothing else is done |
| KillList.EraseKeepsDistinct | ed.chared.c:903-918 | with killdup=erase the ring never holds a text twice |
| KillList.HoldsNewest | ed.chared.c:894-944 | without killdup the ring holds the newest kills of any run in order, as many as it has room for |
| KillList.HoldsLastOfEach | ed.chared.c:894-944 | with killdup=erase it holds the newest of the run without the kills that came again later |
| KillList.KillAdds | ed.chared.c:894-944 | a text that is not in the ring goes behind the others, and the oldest goes when there is no room |
| KillList.KillAgain | ed.chared.c:901-929 | a text that is there already is moved to the end by erase and left by all; prev leaves it only if it is the last |
| KillList.LastPushed | ed.chared.c:894-944 | after a kill its text is the newest entry if and only if not killdup=all with an older equal entry |
| KillList.ResizeKeeps | ed.chared.c:866-886 | resizing to at least the number of entries keeps them if and only if the ring is full or empty or keeps its size |
| KillRing.MoveUp | ed.chared.c:908-915 | the entry found is moved behind the newer ones, which keep their order |
| KillRing.FindDown | ed.chared.c:903-918 | the newest equal entry is found |
| KillRing.Ring.SetKillRing | ed.chared.c:856-890 | shrinking keeps the newest entries in order; growing keeps all of a full ring, but the oldest entry of one that is not full is replaced by an unfilled slot |
| KillRing.Ring.PushKill | ed.chared.c:894-944 | a push is cons and truncation of a most-recent-first list under each setting of killdup, and YankPos is the newest entry |
| LineEdit.Editor.CInsert | ed.chared.c:164-178 | places are opened at the cursor if they fit, with the mark taken along if it is behind the cursor, and nothing changes if they do not |
| LineEdit.Editor.CDelAfter | ed.chared.c:181-219 | the characters behind the cursor go, the mark moves with the text or falls on the cut, and vi undo can bring them back |
| LineEdit.Editor.CDelBefore | ed.chared.c:222-252 | the same for those in front of the cursor |
| LineEdit.MarkKeeps | ed.chared.c:207-252 | after any deletion the mark is before the same text as before, or at the cut if its place went |
| LineEdit.MarkMoves | ed.chared.c:172-176 | after an insertion in front of it the mark is before the same text, and otherwise behind the same text |
| LineEdit.Editor.VUndo | ed.chared.c:3734-3791 | an undone deletion is back in its place, and undone again is gone again |
| LineEdit.Editor.DeleteUndoUndo | ed.chared.c:3734-3791 | deleting and undoing twice: the line as it was, then as after the deletion |
| LineEdit.Killer.Command | ed.chared.c:2601-2659 | each kill command removes its span, pushes exactly that text, leaves the cursor where it was cut and the mark where the text took it; one that refuses changes nothing |
| LineEdit.SpanTakes | ed.chared.c:2601-2659 | which part of the line each command takes and what it leaves, in terms of line, cursor and mark, and exactly when it refuses |
| LineEdit.Killer.EYankKill | ed.chared.c:2251-2283 | the newest kill is put in at the cursor if it fits; mark and cursor are at its ends |
| LineEdit.Killer.KillYank | ed.chared.c:2251-2283 | killing and yanking restores the line if and only if the killed text is the newest entry |
| LineEdit.Killer.EYankPop | ed.chared.c:2285-2347 | the region between mark and cursor gives way to the entry the argument steps back to; mark and cursor stay at its ends |
| LineEdit.Killer.YankPop | ed.chared.c:2251-2347 | a yank followed by popping n back leaves the line with the entry n older than the newest, if and only if both texts fit |
| CommandHash.Search | sh.exec.c:811-838 | the plain search: the first entry of the path that has the command |
| CommandHash.Hash.DoHash | sh.exec.c:626-745 | the table has exactly the bits that the listed names of the readable absolute entries put there, for any length, width and number of entries, and keeps the sizes given to rehash |
| CommandHash.Hash.IsCommand | sh.exec.c:793-847 | one pass, or with autorehash after a miss a second one on the rebuilt table with the hash value of the old one; a name with a slash is looked up as it is, what is found is there, and no relative entry that has the command is passed over |
| CommandHash.FreshAgrees | sh.exec.c:807-838 | with the table of the path the hashed search returns what the plain one returns if and only if the entry that has the command is relative, or some listed name puts its bit on |
| CommandHash.ReadableAgrees | sh.exec.c:683-723 | and that is so whenever the directory of the command can be read |
| CommandHash.RehashAndFind | sh.exec.c:626-847 | dohash and then iscommand return the index of the plain search whenever the directory of the command can be read; if all can be read, no entry in front of it has the command |
| CommandHash.UnreadableHides | sh.exec.c:689-691 | a directory that can be searched but not read hides its commands from the hashed search |
| CommandHash.StaleFinds | sh.exec.c:807-844 | the pass after the rehash misses nothing if and only if some entry with the command is relative, has its bit on at the old hash value in the new table, or has it on in what lies behind its end |
| CommandHash.StaleAgrees | sh.exec.c:807-844 | the pass after the rehash returns the index of the plain search if and only if this holds of the entry the plain search finds |
| CommandHash.SameLengthFinds | sh.exec.c:807-844 | with a table of the old length it misses no command of a readable directory |
| CommandHash.StaleMisses | sh.exec.c:807-844 | where the hash value differs in the new table, the only command of the path is missed |
| CommandHash.HashShrinks | sh.exec.c:659-674 | for lengths that divide each other, as those dohash chooses do, the hash values agree if and only if the one for the longer table is below the smaller length |
| CommandHash.ShrunkPath | sh.exec.c:807-844 | the path of nine entries becomes one without a rehash, as by sh.func.c:659: iscommand rehashes and still misses ls, unless its bit is on behind the table |
| LruList.HoldsMostRecent | ed.syntax.c:139-217 | after any run of uses the cache holds exactly the 64 names used most recently, in that order |
| LruList.HoldsLastStored | ed.syntax.c:139-217 | after any run of uses, however the verdicts change, the cache gives for each of its names the verdict that was stored last |
| CommandCache.Cache.Lookup | ed.syntax.c:171-184 | a hit returns its verdict and becomes the most recent; a miss changes nothing |
| CommandCache.Cache.Store | ed.syntax.c:187-217 | a new entry is the most recent; a full cache loses the one used least recently |
| CommandCache.Cache.CmdOnPath | ed.syntax.c:237-282 | one use of the cache, and the verdict returned is the one it then holds |
| CommandCache.Cache.Run | ed.syntax.c:224-283 | any run of calls on an empty cache: it ends with the words used most recently, and each answer is the verdict stored last for its word |
| CommandCache.SameKey | ed.syntax.c:171-182 | two names share a verdict if and only if they are equal or agree in their first 63 characters |
| ExprEval.Evaluator.Exp2x | sh.exp.c:233-254 | the same at the level of the bitwise or |
| ExprEval.Evaluator.Exp2a | sh.exp.c:256-277 | the same at the level of the bitwise exclusive or |
| ExprEval.Evaluator.Exp2b | sh.exp.c:279-300 | the same at the level of the bitwise and |
| ExprEval.Evaluator.ExpParen | sh.exp.c:566-574 | a parenthesis is an operand if a word that starts with the closing one follows |
| DirCanon.NullComponent | sh.dir.c:998-1003 | the slash at the end goes, but for that of the root |
| DirCanon.Name | sh.dir.c:1092-1157 | an ordinary name stays, with its slash put back |
| DirCanon.BackUp | sh.dir.c:1078-1081 | the pointer backs over exactly the last component of the stack |
| DirLinks.LinkIn | sh.dir.c:787-790 | linking an entry in leaves a well formed chain with it |
| DirLinks.LinkOver | sh.dir.c:557-560 | linking an entry over another leaves a well formed chain with the one for the other |
| DirRing.Ring.constructor | sh.dir.c:98-170 | the ring of one directory is well formed |
| DirRing.Ring.PushNew | sh.dir.c:779-792 | a new directory is on top of what was displayed |
| DirRing.Ring.BringUp | sh.dir.c:768-778 | +n rotates the displayed stack, or with dextract moves one entry to its front |
| DirRing.Ring.LeaveFor | sh.dir.c:539-550 | the current entry is dropped for one further down, which becomes the top |
| DirRing.Ring.ReplaceTop | sh.dir.c:554-562 | the top of the displayed stack is replaced |
| DrawLine.CalcPosition | ed.refresh.c:1252-1281 | one character is counted by its class |
| DotLock.Process.OpenTemp | dotlock.c:79-89 | the outcomes of the exclusive creation and of its five tries |
| DotLock.Process.LinkTemp | dotlock.c:94-98 | the link is made just if the call does it and the names allow it, whatever is reported, and the directory is what the call found or has the lock as well |
| DotLock.Process.OpenFive | dotlock.c:79-89 | up to five opens, all but the last refused because the name is taken |
| DotLock.Process.LinkAndStat | dotlock.c:94-125 | link, stat if the link is reported as made, unlink, and the result by what these report |
| CommandHash.Hash.HashName | sh.exec.c:783-790 | the hash of a name is below the number of buckets and depends on the name and that number only |
| CommandHash.Hash.Scan | sh.exec.c:811-838 | one pass finds the first entry that has the command among those whose bit is on, and looks into relative entries whatever the bits |
| CommandCache.Cache.Victim | ed.syntax.c:193-212 | the slot to store into is an empty one, or that of the least recent use |
| LineEdit.Editor.TakeOut | ed.chared.c:3742-3758 | undoing an insertion takes the characters out and keeps them for the next undo |
| LineEdit.Editor.PutBack | ed.chared.c:3760-3770 | undoing a deletion puts the characters back |
| GlobWalk.Walker.TryEntry | glob.c:619-649 | one entry of a directory is followed just if it passes the dot rule and matches the segment, or does not match it under a negation |
| GlobWalk.Walker.CopySegment | glob.c:518-525 | the next segment runs to the next slash or the end; if no set mentions a slash it is the segment of the tokens, known to have metacharacters or not |
| KeyTrie.DeleteBinds | ed.xmap.c:331-373 | what deleting does to every binding |
| KeyTrie.AddWellformed | ed.xmap.c:234-299 | adding leaves siblings distinct and every childless node bound |

## Left out

- Emit.UpdateLine: on terminals with tabs only for widths up to 256, see above; on wider ones the tabs overshoot.
- Refresh.RefreshLines: for terminals with a way up only, and for rows that keep the cursor, which on terminals with ce are all rows; without up, MoveToLine goes down only (TerminalIO.Terminal.MoveToLine).
- TerminalIO.Terminal.MoveToChar: colour, highlighting, literal prompt cells, double-width cells and magic margins are not modelled; a cell is one opaque character.
- T_CanIns counts the string im alone, but Insert_write needs ei with it; the model has both or neither.
- Layout.LineAgrees: one class for each character; that RefCursor and Refresh classify prompt characters with different flags is not modelled, nor are combining characters and code points shown as \U+.
- Layout.OneKey: the classes of the C locale, in which bytes from 128 on cannot be shown; elsewhere the class of a character is a parameter.
- Screen.RefreshScreen: for terminals as in Refresh.RefreshLines; the right prompt and the predicted suggestion behind the input are not drawn.
- DrawLine.VDisplay.Draw: the display buffer must have rows enough for the line, as the size computed in ed.screen.c provides.
- DirCanon.Canonicalize: no symbolic links, no rewriting of the home directory, no double slash at the front.
- DirRing.Ring.Chngd: a negative number is taken as the word directly behind cd; behind -- it would fall through to a directory name.
- DirRing.Ring.Popd: a negative number is an argument only behind --; without it skipargs takes it for flags and refuses it, for pushd and popd alike.
- DirRing.Ring.Pushd: a negative number as for popd; whether chdir succeeds and the name dfollow finds are parameters; freed entries are left to garbage collection; the variables cwd, owd and PWD are not modelled.
- GlobWalk.Glob: for patterns whose sets mention a slash only that no matching path is found, not which others are; not in the order of the result, without GLOB_STAR, GLOB_MARK, GLOB_NOCHECK, symbolic links and directories that cannot be read.
- GlobMeaning.BracketMeans: the bracket is not around a backslash, nor around the sign that negates; what those are read as is stated of the compiler alone (GlobCompile.CompileSet).
- GlobMatch.Match: characters of one byte, ordered by their codes; multibyte decoding and locale collation are not modelled.
- XkeyMap.XmapNode.TryNode: the scan along the siblings is a recursive call where the C code loops; nodes that PutFreeNode releases are left to garbage collection.
- XkeyMap.TryDeleteNode: the link comes back as a result where the C code writes through a pointer to it.
- ExprEval.Evaluator.Filetest: the single tests are one parameter of the environment; so are globbing, Gmatch, getn, putn and the bit operators. Only ExprMeaning assumes something of them: that getn reads back what putn writes, and of the words it is about that they are numbers and not patterns.
- ExprEval.Evaluator.ExpBrace: the words are not written to while the block runs, which the C code undoes.
- LockProtocol.MutualExclusion: names made from pid and time are distinct by assumption, only the holder unlocks, and the link count that stat reports is the true one.
- DotLock.Process.DotLock: a call of a process with nothing left in its schedule fails; signals and the pause between tries are not modelled.
- KillRing.Ring.PushKill: texts hold no NUL, so that they are compared as a whole.
- LineEdit.Editor.VUndo: for the states its own deletions leave; an undo of the kind that exchanges characters is not modelled. It does not move the mark.
- LineEdit.Editor.CDelAfter: in vi mode the C loop reads up to LastChar + num, past the buffer for lines longer than half of it; what it reads there is left open and does not matter.
- LineEdit.Killer.Command: the ends of words come from outside; history commands and the commands on case and transposition are not modelled.
- CommandHash.Hash.IsCommand: a bucket is the set of its bits, and what lies behind the table is a parameter; rehash without a path variable, extensions dropped on other systems and find_cmd are not modelled.
- CommandCache.Cache.CmdOnPath: the clock does not wrap; after 2^32 uses the newest entry would be the first to go.
- Tty modes, signals, start-up, history, completion, spelling, prompts, job control and the remaining builtins are not part of this model.
