# Verified model of GoJump

GoJump is an SSH bastion: users log in, pick a host in a terminal menu and are bridged to it. This
project models the parts of GoJump that are hard to get right and proves what they keep, in every run
and for every input.

| part | files |
|---|---|
| The terminal: key decoding, the line editor and its in-place buffer, the display it keeps on the remote screen, history, and reading lines from a stream | `Utf8`, `KeyDecoder`, `Screen`, `Display`, `LineEditor`, `History`, `ReadLoop`, `Keystrokes`, `KeyLaws`, `Terminal` |
| Tables that fit a terminal: column widths and cut cells | `Table`, `Truncation` |
| Reuse of SSH clients: cache manager, callers, reference counts | `SshManager` |
| A proxied login: gates, login tickets, session and switch tables, records | `ProxyProtocol` |
| The bridge between user and server | `Bridge` |
| Failed-login counter and one-time passwords | `LoginLimiter`, `Otp` |
| Session channel requests and their parsers | `ChannelRequests`, `ChannelParsers` |
| The menu: paging, the node tree, completion | `Pager`, `NodeKeys`, `NodeForest`, `Completion` |

Objects that the source updates in place are classes here (`Terminal`, `RingBuffer`, `WrapperTable`,
`UserSSHClient`, `SelectHandler`, `ChannelSession`); each method is proved against a function on values,
and the laws are proved about that function. Code that runs concurrently is a state machine: a `State`,
the `Action`s of all goroutines, `Enabled` and `Apply`; a step is one access under a lock, one channel
operation or one database operation, and the theorems are about every state of every run (`IsRun`).

The largest results:

- `Terminal.HandleKey` and `Terminal.ReadLine`: the buffer, cursor arithmetic and escape sequences refine
  an editor on (text before, text after the cursor); the output, replayed on an auto-wrapping screen of any
  width, always shows exactly prompt and line with the real cursor on the logical one; it has all been
  written at every read and every return but end of file; and the result does not depend on how reads split
  the input, exactly for the streams that `ReadLoop.Settles` describes.
- `KeyLaws`: what is typed is what is returned. Every key is pinned from its bytes to its effect on line,
  cursor and history, and any text, sent as bytes and followed by any moves, comes back whole at Enter.
- `SshManager`: with any number of callers on shared unbuffered channels every caller gets its own answer,
  and reference counts are conserved on every success and failure path.
- `ProxyProtocol`: no session before authentication, a valid permission and the approval that was needed,
  by an administrator who gave it; decisions are final; every session is cleaned up with exactly one closing
  record, and the records tell what happened to it.
- `ChannelRequests`: every reply is the truth about its request, and the first program admitted is the
  only one started.

Where code and comments differ, the model follows the code:

- `GetClient` says it returns the client with the fewest sessions; it returns one with the most.
- A word move to the left takes a space at index 0 with the word behind it: position 1 is never a stop.
- `keySort` answers true for equal keys, so it is an order only on distinct keys.
- Going back from a partial last page shows a window that is not aligned to pages; the flags are right there too.

Properties that one might expect and that fail; each has a run or input that shows it and the exact
condition under which it holds:

| expected | fails | holds exactly when |
|---|---|---|
| how reads split the input does not matter | `ReadLoop.SplitMattersAfterError` | `ReadLoop.SplitsAgreeExactly` |
| at end of file the user sees the line as it is | `Terminals.EofHidesErasure` | `Terminals.Terminal.UpToDateExactly` |
| the pager offers a next page when items remain | `Pager.SelectHandler.ResizeHidesItems` | `Pager.SelectHandler.FlagsExactly` |
| the pager offers a previous page when items precede | `Pager.SelectHandler.AllHidesItems` | `Pager.SelectHandler.FlagsExactly` |
| a bridge forwards all server output | `Bridge.SignalCanOvertakeData` | `Bridge.StopForwardsExactly` |
| a client that a caller is about to use is open | `SshManager.RecycleOvertakesAcquire` | `SshManager.ClosedInHandExactly` |
| a one-time password is accepted once | `Otp.UsedTwice` | `Otp.AcceptedAgainExactly` |
| a password lives as long as it should | `Otp.CutShort` | `Otp.LifetimeExactly` |
| a signal is delivered once | `ChannelRequests.SignalTwice` | `ChannelRequests.DeliveredOnceExactly` |
| a completed line keeps its candidates | `Completion.HalfACharacter` | `Completion.CandidatesKeptExactly` |
| completing twice is completing once | `Completion.SecondTabCompletes` | `Completion.SecondTabExactly` |
| column widths stay within their limits | a column without data starts at 0 | `Table.RangeKeptExactly` |
| a cell cut at its front fits | `Truncation.FrontCutOverflows` | `Truncation.FrontCutFits` |
| a printed number selects its node | a key listed twice | `NodeForest.NumbersSelect` |
| the string parser stays within its input | a length of 2^32 - 4 or more | `ChannelParsers.OutOfBoundsExactly` |

`dafny verify dfyconfig.toml` checks the whole project.

## Model

| member | source | states |
|---|---|---|
| `Utf8.DecodeEncode` | pkg/common/terminal.go:171-177 | Decoding the front of any input that starts with an encoded code point yields that code point and its width, whatever follows |
| `Utf8.EncodeDecode` | pkg/common/terminal.go:175-176 | What was decoded without error is encoded to exactly the bytes it came from |
| `Utf8.DecodeStable` | pkg/common/terminal.go:171-177 | A code point (or decoding error) once recognised is recognised the same when more bytes arrive |
| `Utf8.PrefixIsPartial` | pkg/common/terminal.go:172-174 | Every proper front of an encoding counts as incomplete, never as an error |
| `KeyDecoder.SequenceEnd` | pkg/common/terminal.go:217-221 | The end of an unknown escape sequence is just after the first byte that can end one; none exactly if there is no such byte |
| `KeyDecoder.KnownSequence` | pkg/common/terminal.go:179-211 | A recognised sequence consumes input and is never the no-key marker |
| `KeyDecoder.BytesToKey` | pkg/common/terminal.go:145-224 | A decoded key has consumed at least one byte; the rest is never longer than the input. Which key bytes stand for is stated by the `KeyLaws` rows |
| `KeyDecoder.KeyStable` | pkg/common/terminal.go:145-224 | Once input is not partial, its first key and what follows it do not depend on input that arrives later |
| `KeyDecoder.PartialPrefix` | pkg/common/terminal.go:145-224 | Every front of partial input is partial |
| `KeyDecoder.SequenceIsOneKey` | pkg/common/terminal.go:217-221 | What starts with escape is one key up to the first letter or tilde, whether known or not, and partial before that |
| `KeyLaws.MovingKeys` | pkg/common/terminal.go:145-224 | From bytes to line: Home and Ctrl-A leave nothing before the cursor, End and Ctrl-E nothing after it, the arrows pass one character, Ctrl-L changes nothing; the line stays as it is |
| `KeyLaws.ArrowsMoveAsOnScreen` | pkg/common/terminal.go:180-193 | The bytes of an arrow move the cursor in the line exactly as the same bytes move the cursor on a screen, if there is room; Home takes both to their first place |
| `KeyLaws.ArrowsUndo` | pkg/common/terminal.go:185-188 | Left undoes Right, and Right undoes Left |
| `KeyLaws.ErasingKeys` | pkg/common/terminal.go:455-558 | From bytes to line: Backspace, Ctrl-K, Ctrl-U and Ctrl-D remove the character before, all after, all before, and the character under the cursor, and keep the rest |
| `KeyLaws.WordKeys` | pkg/common/terminal.go:381-404 | From bytes to line: from behind a word and its gap, Ctrl-W removes both and Alt-Left passes over both |
| `KeyLaws.WordRightKey` | pkg/common/terminal.go:408-423 | From bytes to line: Alt-Right passes over the rest of a word and the gap after it |
| `KeyLaws.EndingKeys` | pkg/common/terminal.go:519-537 | From bytes to events: Enter returns the whole line wherever the cursor is, and puts it into the history if it was echoed; Ctrl-C returns an empty line; Ctrl-D on an empty line ends the input |
| `KeyLaws.HistoryKeeps` | pkg/common/terminal.go:994-1006 | The history keeps the last hundred lines, the latest first |
| `KeyLaws.HistoryKeys` | pkg/common/terminal.go:492-518 | From bytes to line: Up and Ctrl-P show the entry before, Down and Ctrl-N the one after, the pending line after the latest; nothing beyond the ends |
| `KeyLaws.UnknownSequence` | pkg/common/terminal.go:213-223 | A sequence that stands for no key changes nothing |
| `KeyLaws.TabCompletes` | pkg/common/terminal.go:568-583 | A completion takes the place of the line, with the cursor where the callback puts it |
| `KeyLaws.TypedLineIsReturned` | pkg/common/terminal.go:790-868 | Any printable text of up to 4096 characters, sent as bytes and followed by any moves within the line and Enter, is returned as the line, whole and in order, and is the latest of the history |
| `KeyLaws.PastedLineIsReturned` | pkg/common/terminal.go:818-850 | Text pasted behind typed text is returned with it; the line is marked as pasted exactly if it ends inside the paste and nothing was typed before it |
| `KeyLaws.PastedLinesAreReturned` | pkg/common/terminal.go:818-850 | Every line of a paste is returned by itself, in order, marked as pasted |
| `Screen.FeedMove` | pkg/common/terminal.go:274-313 | The decimal digits of a cursor movement are read back by the screen as exactly the distance meant, for every distance |
| `Screen.FeedGlyphs` | pkg/common/terminal.go:335-356 | A run of glyphs lands on consecutive cells, wrapping at the right edge, and changes no other cell |
| `Screen.FeedRun` | pkg/common/terminal.go:335-356 | With the extra line feed at a row end the real cursor is on the cell after the run, never in a pending wrap |
| `Display.FeedMoveSeq` | pkg/common/terminal.go:274-313 | A combined up/down/left/right movement moves the real cursor by exactly those amounts |
| `Display.Overwrite` | pkg/common/terminal.go:322-333 | Rewriting everything after a common front, with enough blanks, shows the new text and nothing of the old |
| `Display.CutRedrawn` | pkg/common/terminal.go:358-379 | Redrawing the tail and as many blanks as were cut shows the line without the cut part |
| `Display.InsertRedrawn` | pkg/common/terminal.go:594-608 | Redrawing from the inserted key on shows the line with the key in it |
| `Display.FeedNewLine` | pkg/common/terminal.go:529-537 | The line ending of a finished line puts the cursor at the start of an empty row below everything shown |
| `Display.FeedClearHome` | pkg/common/terminal.go:562-564 | The clear sequence leaves an empty screen with the cursor in its first cell |
| `LineEditor.PreviousWord` | pkg/common/terminal.go:383-404 | A word move to the left stays in the line and, from inside it, moves at least one place |
| `LineEditor.NextWord` | pkg/common/terminal.go:408-423 | A word move to the right stays in the line and, unless at its end, moves at least one place |
| `LineEditor.WordStartFrom` | pkg/common/terminal.go:395-401 | The word start found is the last one at or before the position |
| `LineEditor.WordEndFrom` | pkg/common/terminal.go:410-421 | The word end found is the first one at or after the position |
| `LineEditor.WordMovesAndDeletionAgree` | pkg/common/terminal.go:381-423 | Word moves keep the line, always make progress, and word deletion removes exactly what a word move to the left passes over |
| `LineEditor.IndexStaysInRange` | pkg/common/terminal.go:492-518 | Whatever key is pressed and whatever line is returned, the history index stays in [-1, size) |
| `LineEditor.UpMany` | pkg/common/terminal.go:492-502 | k presses of Up from the pending line show the k-th previous entry and keep the pending line, for every k up to the size |
| `LineEditor.DownMany` | pkg/common/terminal.go:503-518 | k presses of Down show the entry k places nearer, or the pending line |
| `LineEditor.HistoryRoundTrip` | pkg/common/terminal.go:492-518 | k Ups then k Downs restore the pending line; nothing else of the editor changes |
| `History.RingBuffer.constructor` | pkg/common/terminal.go:984-999 | A new ring stands for the empty history |
| `History.RingBuffer.Add` | pkg/common/terminal.go:994-1006 | Adding to the ring is prepending to the list of the last 100 lines, after any number of additions |
| `History.RingBuffer.NthPreviousEntry` | pkg/common/terminal.go:1012-1021 | Entry n is the n-th element of that list, none beyond its end |
| `ReadLoop.TakeKey` | pkg/common/terminal.go:810-850 | A key leaves undecoded input alone and returns at most one event |
| `ReadLoop.NextReceive` | pkg/common/terminal.go:804-833 | Applying a key commutes with the arrival of more input |
| `ReadLoop.PumpReceive` | pkg/common/terminal.go:801-867 | If the stream settles, decoding what is there before or after more input arrives gives the same keys, lines and remainder |
| `ReadLoop.KeyKeepsValid` | pkg/common/terminal.go:145-224 | A key decoded from valid UTF-8 without U+FFFD leaves valid UTF-8, and only a partial key is not decoded |
| `ReadLoop.ValidSettles` | pkg/common/terminal.go:790-868 | Every stream of valid UTF-8 without U+FFFD settles: decoding stops only where more input is needed |
| `ReadLoop.ChunkIndependence` | pkg/common/terminal.go:790-868 | However reads split such a stream, the keys applied, the lines returned and the partial key left over are the same |
| `ReadLoop.SplitsAgreeExactly` | pkg/common/terminal.go:790-868 | For any byte stream at all: the result of reading it does not depend on how the reads split it if and only if it settles |
| `ReadLoop.ReadsProgress` | pkg/common/terminal.go:855-866 | Reads that may return something read the whole stream, as long as no partial key fills the buffer |
| `ReadLoop.ConsumedLater` | pkg/common/terminal.go:790-868 | How much is read over several calls is what one call would have read |
| `Keystrokes.StrokesSettle` | pkg/common/terminal.go:145-224 | Any stream of characters, complete escape sequences and pastes of glyphs and line ends is decoded without loss, leaves the line displayable and, without a clear-screen character, does not clear the screen |
| `ReadLoop.SplitMattersAfterError` | pkg/common/terminal.go:806-841 | A stream that does not settle: after an undecodable byte the rest of the same read waits for another read |
| `Terminals.GlyphsAreVisible` | pkg/common/terminal.go:426-444 | The visual length of printable text is its length |
| `Terminals.SequencesAreInvisible` | pkg/common/terminal.go:426-444 | An escape sequence, up to its first letter, adds nothing to the visual length of what follows it |
| `Terminals.Terminal.constructor` | pkg/common/terminal.go:102-112 | A new terminal is an empty editor whose screen is blank |
| `Terminals.Terminal.Move` | pkg/common/terminal.go:274-313 | The queued sequence moves the real cursor by the amounts asked for |
| `Terminals.Terminal.MoveCursorToPos` | pkg/common/terminal.go:240-272 | Both the logical and the real cursor end on the cell of the position; no cell changes |
| `Terminals.Terminal.AdvanceCursor` | pkg/common/terminal.go:335-356 | The logical cursor advances by the places written; a line feed is sent exactly at a row end |
| `Terminals.Terminal.WriteLine` | pkg/common/terminal.go:610-621 | Text written row by row lands on consecutive cells and the cursor on the cell after it |
| `Terminals.Terminal.SetLine` | pkg/common/terminal.go:322-333 | The line is replaced and the screen shows prompt and new line, nothing of the old |
| `Terminals.Terminal.EraseNPreviousChars` | pkg/common/terminal.go:358-379 | Up to n runes before the cursor are cut out in place and the screen shows the result |
| `Terminals.Terminal.Grow` | pkg/common/terminal.go:595-599 | A full buffer is doubled without changing the line |
| `Terminals.Terminal.InsertAtCursor` | pkg/common/terminal.go:600-603 | The in-place shift inserts the key at the cursor |
| `Terminals.Terminal.AddKeyToLine` | pkg/common/terminal.go:594-608 | Insertion into the buffer is insertion into the line; the screen shows it |
| `Terminals.Terminal.CountToLeftWord` | pkg/common/terminal.go:383-404 | The loop finds the distance to the previous word start of the text before the cursor |
| `Terminals.Terminal.CountToRightWord` | pkg/common/terminal.go:408-423 | The loop finds the distance to the next word of the text after the cursor |
| `Terminals.Terminal.MoveLogical` | pkg/common/terminal.go:460-491 | Moving within the line changes only the split of the line, and the display follows |
| `Terminals.Terminal.DeleteUnderCursor` | pkg/common/terminal.go:550-557 | The rune under the cursor is deleted by stepping over it and erasing backwards |
| `Terminals.Terminal.DeleteLine` | pkg/common/terminal.go:541-549 | Everything after the cursor is removed from line and screen |
| `Terminals.Terminal.ReplaceLine` | pkg/common/terminal.go:492-518 | A history entry replaces the line, with the cursor at its end |
| `Terminals.Terminal.ClearScreen` | pkg/common/terminal.go:560-566 | The screen is cleared and prompt and line are shown again from its first row |
| `Terminals.Terminal.EndLine` | pkg/common/terminal.go:528-537 | The finished line stays on the screen; the next starts empty on a fresh row |
| `Terminals.Terminal.KeyUpPressed` | pkg/common/terminal.go:492-502 | Up refines the reference step through the history |
| `Terminals.Terminal.KeyDownPressed` | pkg/common/terminal.go:503-518 | Down refines the reference step through the history |
| `Terminals.Terminal.OtherKey` | pkg/common/terminal.go:567-588 | A key is offered to the completion callback, and otherwise inserted if printable |
| `Terminals.Terminal.EditKey` | pkg/common/terminal.go:455-491 | Every editing key equals the same operation on the text before and after the cursor |
| `Terminals.Terminal.HandleKey` | pkg/common/terminal.go:448-590 | Every key refines the reference editor in all its state; a line is returned exactly for Enter and Ctrl-C, by Enter the whole line; with echo on, the screen then shows exactly prompt and line with the real cursor on the logical position |
| `Terminals.Terminal.WritePrompt` | pkg/common/terminal.go:793-797 | The prompt is written, and all output with it, exactly when the cursor is at the start of the line; otherwise nothing is sent |
| `Terminals.Terminal.StoreLine` | pkg/common/terminal.go:842-846 | A returned line is put into the history |
| `Terminals.Terminal.ProcessKey` | pkg/common/terminal.go:810-832 | Paste brackets and end of file are handled as in the reference reader; other keys are pressed; end of file comes only on an empty line; rows above the line are kept |
| `Terminals.Terminal.Drain` | pkg/common/terminal.go:802-841 | Decoding all complete keys at once agrees with the reference reader; the display stays in step |
| `Terminals.Terminal.DrainAndWrite` | pkg/common/terminal.go:802-841 | After decoding, all output is written, except at end of file, where nothing is |
| `Terminals.Terminal.Fetch` | pkg/common/terminal.go:855-866 | A read, made only when all output has been written, puts behind the partial key exactly as many bytes as were asked for, fit the buffer and are there |
| `Terminals.Terminal.ReadLine` | pkg/common/terminal.go:790-868 | One call, whatever the sizes of its reads, returns what decoding the bytes read at once would have, if the stream settles; it reads exactly what its reads can; if all keys are displayable, decoding errors or not, the display is in step and the rows above it are kept; all output is written unless it returns end of file, and then what is written shows the text at the last read |
| `Terminals.Terminal.ReadAll` | pkg/common/terminal.go:790-868 | Over any number of calls the amount read is determined by the read sizes, and events, editor and remainder by the bytes read alone |
| `Terminals.ReadBoth` | pkg/common/terminal.go:790-868 | Two terminals that read one stream in reads of any positive sizes return the same lines and end in the same state |
| `Terminals.Terminal.UpToDateExactly` | pkg/common/terminal.go:811-816 | After end of file the user sees the line as it is if and only if, since output was last written, only spaces after the cursor were deleted |
| `Terminals.EofHidesErasure` | pkg/common/terminal.go:811-816 | A run in which end of file leaves an erased character on the screen |
| `Table.WrapperTable.MeasureColumns` | pkg/common/table.go:55-66 | The widest value of every column that has a value is found, and only of those |
| `Table.WrapperTable.Clamp` | pkg/common/table.go:71-82 | A fixed column starts with its fixed width; any other, if its limits are consistent, with the width within them that is nearest to that of its data |
| `Table.WrapperTable.Changeable` | pkg/common/table.go:105-123 | Exactly the columns that may take a step are collected, each once |
| `Table.WrapperTable.Round` | pkg/common/table.go:127-133 | One round gives each such column at most one step and conserves the amount still to deal out |
| `Table.WrapperTable.Deal` | pkg/common/table.go:104-134 | The rounds end; no step is taken against a limit, no column is more than a step ahead of one that could move, and the target is met unless every column is pinned |
| `Table.WrapperTable.CalculateColumnsSize` | pkg/common/table.go:52-135 | The widths are an allocation of the target to the starting widths, whatever order the columns are visited in |
| `Table.AllocationsAgree` | pkg/common/table.go:71-135 | Any two allocations, so any two iteration orders, differ by at most one in every column |
| `Table.AllocationKeepsRange` | pkg/common/table.go:105-133 | Fixed columns never move; a column that starts within its limits ends within them |
| `Table.RangeKeptExactly` | pkg/common/table.go:71-133 | A column is within its limits for every target if and only if it starts within them (a column without data starts at 0) |
| `Table.TargetMissedExactly` | pkg/common/table.go:104-134 | If the widths fall short of the target every column that is not fixed is at its greatest width, if they exceed it at its least |
| `Table.WrapperTable.FrameIsTheRest` | pkg/common/table.go:95-95 | A drawn row whose cells take what the frame leaves is exactly as wide as the table may be |
| `Truncation.GetValidString` | pkg/common/table.go:195-214 | The loop finds the longest valid UTF-8 text up to (or from) the position, and nothing for a position outside the string |
| `Truncation.KeepsFront` | pkg/common/table.go:195-214 | Cutting a text keeps as many whole characters from its front as fit |
| `Truncation.KeepsBack` | pkg/common/table.go:195-214 | Cutting a text keeps as many whole characters from its back as fit |
| `Truncation.FitCell` | pkg/common/table.go:137-163 | A value that fits is shown whole; otherwise the parts the policy keeps are shown around dots |
| `Truncation.CutFits` | pkg/common/table.go:145-157 | A cell cut at its end or in its middle fits the column exactly when the column has room for the dots, and the parts do not overlap |
| `Truncation.CutIsFull` | pkg/common/table.go:145-157 | As much as fits is shown: a cell cut at its end leaves at most three bytes of the column free, one cut in its middle at most seven, and its two parts differ by at most three |
| `Truncation.FrontCutFits` | pkg/common/table.go:149-151 | A text cut at its front fits exactly when only the dots are shown |
| `Truncation.FrontCutOverflows` | pkg/common/table.go:149-151 | Ten letters in a column of five are shown as eleven characters |
| `SshManager.UserSSHClient.GetClient` | pkg/srvconn/ssh.go:29-40 | Whatever the iteration order and however the counts change, a stored client is found, none exactly when none is stored; if they do not change, one with the largest count |
| `SshManager.UserSSHClient.RecycleClients` | pkg/srvconn/ssh.go:42-57 | Exactly the clients not in use are removed and closed |
| `SshManager.StepKeepsInv` | pkg/srvconn/ssh.go:85-163 | Every step of callers and manager keeps counts, session tables, ledger, channels and open clients consistent |
| `SshManager.RunKeepsInv` | pkg/srvconn/ssh.go:85-163 | The invariant holds in every state of every run |
| `SshManager.RecycleCloses` | pkg/srvconn/ssh.go:42-57 | Recycling spares every client with a session still to be released or an acquisition in progress |
| `SshManager.ClosedExactly` | pkg/srvconn/ssh.go:92-113 | A client, also one in the hands of a caller about to acquire a session, has been closed if and only if some recycling found it stored with a count of 0 |
| `SshManager.ClosedInHandExactly` | pkg/srvconn/ssh.go:92-121 | A client in the hands of a caller about to acquire a session was open when the caller was given it or stored it, and has been closed if and only if a recycling since then found it stored with a count of 0 |
| `SshManager.RecycleOvertakesAcquire` | pkg/proxy/server.go:351-357 | A run in which a caller that has dialled and stored its client is left with a closed one |
| `SshManager.Conservation` | pkg/proxy/server.go:356-383 | In every reachable state the count equals sessions still to be released plus acquisitions in progress, is never negative, no session is released twice, each one done with has been released once, and no client with a session is closed by recycling |
| `SshManager.ReplyOrigin` | pkg/srvconn/ssh.go:114-121 | A reply in progress answers the last request accepted, and its caller is the one still waiting |
| `SshManager.ResponsesMatch` | pkg/srvconn/ssh.go:85-163 | Whoever receives a result is the caller whose request it answers: a client with the largest count of those that had been stored under that key and not been dropped by a recycling, or none exactly when there were none |
| `SshManager.StoredExactly` | pkg/srvconn/ssh.go:92-113 | In every run a client is stored under a key if and only if a caller stored it there and no recycling since has found it with a count of 0 |
| `SshManager.DialReason` | pkg/proxy/server.go:426-459 | A caller dials only if it was not to reuse clients, nothing was found for it, or the client found failed |
| `SshManager.StopReason` | pkg/proxy/server.go:318-384 | A caller is done only if its session ended, it could not dial, or the client it had dialled itself failed; a failing client of the cache is no reason |
| `ProxyProtocol.DecisionsAreFinal` | pkg/core/auth.go:68-78 | A decided ticket, with its approver, is the same in every later state of every run |
| `ProxyProtocol.RunBacked` | pkg/auth/loginConfirm.go:73-102 | A proxy that passed the gate by a ticket is backed by that ticket being approved by the reported approver |
| `ProxyProtocol.TicketOrigin` | pkg/core/auth.go:15-54 | The ticket a proxy waits for is the one made for it |
| `ProxyProtocol.PassOrigin` | pkg/proxy/loginConfirm.go:14-93 | Whatever let a proxy pass goes back to its own question whether confirmation is needed |
| `ProxyProtocol.SessionsAreConfirmed` | pkg/proxy/server.go:133-197 | A session is created or bridged only after its user was authenticated, had a permission that was not expired, and asked whether confirmation is needed, in this order; if it was needed, after the approver that is reported approved the ticket made for it, which in every later state stays approved |
| `ProxyProtocol.DecisionOrigin` | pkg/core/auth.go:68-78 | A decided ticket carries the outcome of the first accepted decision on it: approved or rejected as that administrator said, or closed by its own proxy |
| `ProxyProtocol.PermissionOrigin` | pkg/proxy/server.go:133-149 | A proxy asks for confirmation only after authentication succeeded and then the permission was found not expired |
| `ProxyProtocol.PollEnds` | pkg/auth/loginConfirm.go:73-102 | A poll that reads a decided ticket ends the wait: with a pass if it was approved, else for good |
| `ProxyProtocol.WaitGoesOn` | pkg/auth/loginConfirm.go:73-102 | A wait goes on until a poll reads a decision or the proxy acts on its user's cancelling |
| `ProxyProtocol.ReturnedIsFinal` | pkg/proxy/server.go:133-197 | A proxy that has returned does nothing more |
| `ProxyProtocol.RefusedNeverEnters` | pkg/proxy/server.go:133-153 | A proxy that was refused, expired or cancelled never gets a session |
| `ProxyProtocol.CancelCloses` | pkg/auth/loginConfirm.go:78-80 | A cancelled wait whose update succeeds never leaves the ticket open |
| `ProxyProtocol.StepRecords` | pkg/core/session.go:36-76 | Exactly the two closing operations write a closing record, for their own session only |
| `ProxyProtocol.RunLifecycle` | pkg/proxy/server.go:163-197 | In every reachable state, table entries and closing records of a session agree with where its proxy stands |
| `ProxyProtocol.ReturnCleansUp` | pkg/proxy/server.go:163-197 | When a proxy returns, its session has left both tables, with exactly one closing record attempted if it had created one and none otherwise |
| `ProxyProtocol.RecordsTellTheStory` | pkg/core/session.go:18-76 | When a proxy that created its session returns, the records about it are, once and in order, logged in and disconnected if it reached its server, and failed if it did not |
| `LoginLimiter.StepOwing` | pkg/core/auth.go:141-158 | Only a first failure adds a timer owed or running for a user, and only its firing takes one away |
| `LoginLimiter.StepFlying` | pkg/auth/userAuth.go:26-34 | Count plus attempts in flight grows only while the count is below the limit |
| `LoginLimiter.RunWindow` | pkg/core/auth.go:141-158 | In every reachable state a user is in the counter map exactly when one reset timer is owed or running, and the count is the number of failures since the last reset |
| `LoginLimiter.CountIsBounded` | pkg/core/auth.go:141-165 | With at most k attempts in flight the count never exceeds the limit plus k - 1 |
| `LoginLimiter.LetThroughExactly` | pkg/core/auth.go:160-165 | In every run an attempt is let through if and only if its user has failed fewer times than the limit since the last reset |
| `LoginLimiter.CountedFailed` | pkg/auth/ssh.go:43-57 | Whatever is counted for a user is an attempt of theirs that was let through and then failed to authenticate |
| `LoginLimiter.CountedOnce` | pkg/auth/ssh.go:43-57 | No attempt is counted twice, and none that succeeded |
| `Otp.RunCovered` | pkg/core/otp.go:13-39 | Every stored password has a pending clear that is in time, stale clears included, and no goroutine is late by more than the delay |
| `Otp.PasswordsExpire` | pkg/core/otp.go:13-57 | No password is stored or accepted later than its lifetime and the two delays of one goroutine after it was issued, whatever bound there is on delays |
| `Otp.GenerateReturnsStored` | pkg/core/otp.go:13-27 | While a password is stored it does not change and generating again returns it |
| `Otp.GeneratedIsStored` | pkg/core/otp.go:13-27 | The password that generating returns is the one stored, and is accepted |
| `Otp.AcceptedWasIssued` | pkg/core/otp.go:41-57 | What is accepted was issued under that name, and the name has not been cleared since |
| `Otp.UsedIsCleared` | pkg/core/otp.go:45-54 | A password that has been accepted is cleared within the delay of a goroutine |
| `Otp.AcceptedAgainExactly` | pkg/core/otp.go:41-57 | A password that has been accepted is accepted again if and only if its name has not been cleared since, or the same password has been issued anew and not cleared since |
| `Otp.UsedTwice` | pkg/core/otp.go:45-54 | A run in which one password is accepted twice |
| `Otp.LifetimeExactly` | pkg/core/otp.go:13-39 | A password that is not used is stored as long as it lives and no clear of its name that was asleep when it was issued is due; once such a clear is overdue it has been cleared |
| `Otp.CutShort` | pkg/core/otp.go:29-39 | A run in which a password issued at 1 with a lifetime of 2 is gone at 2 |
| `Pager.PagesIsCeiling` | pkg/handler/pageInfo.go:25-47 | The number of pages is the least whose pages hold all items |
| `Pager.PageNumbersAreExact` | pkg/handler/pageInfo.go:25-47 | On every window that paging with one page size reaches, the page numbers offer a next page exactly when items remain and a previous one exactly when items precede |
| `Pager.NextFlagExactly` | pkg/handler/pageInfo.go:25-47 | On any window at all a next page is offered exactly when items remain if and only if the window ends with the items or no later than where the last page starts |
| `Pager.PreviousFlagExactly` | pkg/handler/pageInfo.go:25-47 | On any window at all a previous page is offered exactly when items precede if and only if the window is the first or the items do not fit one page |
| `Pager.NextStaysReachable` | pkg/handler/selectHandler.go:99-106 | With one page size Next leads from reachable windows to reachable windows |
| `Pager.PreviousStaysReachable` | pkg/handler/selectHandler.go:108-119 | With one page size Prev leads from reachable windows to reachable windows |
| `Pager.PreviousUndoesNext` | pkg/handler/selectHandler.go:99-119 | Prev undoes Next if and only if the page reached was full or the page left was the first |
| `Pager.FilterKeeps` | pkg/handler/selectHandler.go:267-275 | Exactly the matching items are kept, each as often as it is there |
| `Pager.FilterConcat` | pkg/handler/selectHandler.go:267-275 | Matching items keep their order: a list in two parts is filtered part by part |
| `Pager.SelectHandler.SearchLocal` | pkg/handler/selectHandler.go:267-275 | The matching items are found, in order |
| `Pager.SelectHandler.Retrieve` | pkg/handler/selectHandler.go:207-251 | The window cut out is the requested part of the results; the flags compare the page numbers |
| `Pager.SelectHandler.Search` | pkg/handler/selectHandler.go:121-126 | A search shows the first window of its results, cut with the page size of the moment |
| `Pager.SelectHandler.MoveNextPage` | pkg/handler/selectHandler.go:99-106 | The next window starts where the last ended, cut with the page size of the moment; with one page size it is the next page |
| `Pager.SelectHandler.MovePrePage` | pkg/handler/selectHandler.go:108-119 | The window before starts two pages of the size of the moment before the end; with one page size it is the previous page |
| `Pager.SelectHandler.ShowAll` | pkg/handler/selectHandler.go:99-126 | Repeated Next after a Search shows every result once, in order, on as many pages as needed, all but the last full |
| `Pager.SelectHandler.FlagsWithFixedSize` | pkg/handler/selectHandler.go:240-247 | In every run with one page size the flags tell the truth |
| `Pager.SelectHandler.FlagsExactly` | pkg/handler/selectHandler.go:240-247 | In every run, whatever the page sizes, each flag tells the truth if and only if its condition on the window and the page size holds |
| `Pager.SelectHandler.ResizeHidesItems` | pkg/handler/selectHandler.go:99-106 | A run in which a changed page size hides three items |
| `Pager.SelectHandler.AllHidesItems` | pkg/handler/selectHandler.go:108-119 | A run in which a page size changed to all leaves an empty page and no way back |
| `Bridge.StepKeepsInv` | pkg/proxy/switchManager.go:77-191 | Every step of the readers and the main loop keeps what was read equal to what was written followed by what is underway |
| `Bridge.ForwardsPrefix` | pkg/proxy/switchManager.go:54-191 | In every interleaving what each side is sent is an in-order prefix of what the other side wrote; the recorder has the chunks sent to the user, at most one ahead |
| `Bridge.DrainedForwardsAll` | pkg/proxy/switchManager.go:158-165 | A bridge that ends because the server channel is closed has forwarded and recorded all server output |
| `Bridge.StopForwardsExactly` | pkg/proxy/switchManager.go:128-191 | When the bridge stops, all that was read on a side has been, and ever will have been, forwarded if and only if its channel was empty and its reader was not offering a chunk |
| `Bridge.SignalCanOvertakeData` | pkg/proxy/switchManager.go:185-187 | A run in which an exit signal ends the bridge with the last chunk still in the channel |
| `Bridge.ReaderEndsExactly` | pkg/proxy/switchManager.go:77-122 | In every run a reader is over exactly after a read that failed or, for the server, after giving up its chunk to a finished bridge; it has signalled exactly if it took that step, and the channel is closed exactly if the server reader did so last |
| `Bridge.NoReadAfterError` | pkg/proxy/switchManager.go:83-119 | A side is not read again after a failed read |
| `ChannelParsers.ParseEncodedUint32` | pkg/ssh/util.go:78-83 | Encoded words are read back with the rest untouched |
| `ChannelParsers.ParseEncodedString` | pkg/ssh/util.go:64-76 | Encoded strings are read back whenever the payload is shorter than 2^32 bytes |
| `ChannelParsers.ParseEncodedPty` | pkg/ssh/util.go:19-40 | Encoded pty requests (section 6.2 of RFC 4254) are read back |
| `ChannelParsers.ParseEncodedWinch` | pkg/ssh/util.go:42-62 | Encoded window changes (section 6.7 of RFC 4254) are read back exactly when both dimensions are positive, else refused |
| `ChannelParsers.ColumnsThenRows` | pkg/ssh/util.go:19-62 | In a pty request and in a window change columns come before rows, most significant byte first |
| `ChannelParsers.ParsedStringIsEncoded` | pkg/ssh/util.go:64-76 | What the string parser accepts is an encoding of what it returns, followed by the rest |
| `ChannelParsers.ParsedPtyIsEncoded` | pkg/ssh/util.go:19-40 | What the pty parser accepts is an encoding of what it returns |
| `ChannelParsers.ParsedWinchIsEncoded` | pkg/ssh/util.go:42-62 | What the window parser accepts is an encoding of what it returns, with positive dimensions |
| `ChannelParsers.OutOfBoundsExactly` | pkg/ssh/util.go:64-76 | The string parser leaves its input exactly when the 32-bit sum of the length field and four wraps around |
| `ChannelRequests.StepKeepsInv` | pkg/ssh/session.go:235-372 | Every event keeps the invariant and is answered once if it asks for an answer |
| `ChannelRequests.StreamKeepsInv` | pkg/ssh/session.go:235-372 | For every stream: at most one program accepted, one reply to every request but signals, at most 128 buffered signals, at most one exit status, and the pty has the last accepted size |
| `ChannelRequests.FrozenOnceHandled` | pkg/ssh/session.go:238-305 | Once a program is accepted its command, environment and terminal never change |
| `ChannelRequests.PanicsExactly` | pkg/ssh/session.go:318-327 | The loop panics exactly on a pty request it gets as far as parsing whose terminal length wraps around |
| `ChannelRequests.SignalsAreTrue` | pkg/ssh/session.go:306-317 | Signal buffer and deliveries hold the signals of the events that the account names, in order |
| `ChannelRequests.DeliveredOnceExactly` | pkg/ssh/session.go:216-227 | Each signal is delivered at most once if and only if a channel is registered at most once while signals are buffered |
| `ChannelRequests.SignalTwice` | pkg/ssh/session.go:216-227 | A signal that is delivered twice by registering twice |
| `ChannelRequests.ReplyIsTrue` | pkg/ssh/session.go:235-372 | In every state a request other than a signal, unless it panics, gets one reply: true if and only if it took effect on the session, which is so if and only if it is granted (a program only as the first and if the policy admits it); a request not granted changes nothing but the texts of the program refused |
| `ChannelRequests.RepliesAreVerdicts` | pkg/ssh/session.go:235-372 | The replies to a stream say of each request in order whether it was granted |
| `ChannelRequests.StreamDecides` | pkg/ssh/session.go:164-372 | For every stream: the program started is the first one admitted, its environment what was set before it, the exit status the first one given, the channels those registered last |
| `ChannelRequests.ChannelSession.HandleRequest` | pkg/ssh/session.go:235-372 | A request is answered by whether the fields after it show its effect on those before it |
| `ChannelRequests.ChannelSession.HandleRequests` | pkg/ssh/session.go:235-372 | After any stream of requests and handler calls at most one program was started, the first admitted, with the variables set before it; there is one reply for every request but signals, true exactly if it was granted; at most 128 signals are buffered, at most one exit status was sent, and the pty has the last window size sent on |
| `NodeKeys.JoinSplit` | pkg/model/node.go:50-51 | The components of a key determine it |
| `NodeKeys.CanonicalInjective` | pkg/model/node.go:59-67 | Numerals without leading zeros have different values if they differ |
| `NodeKeys.LessTotal` | pkg/model/node.go:49-70 | Of two different numeric keys exactly one comes first |
| `NodeKeys.LessTransitive` | pkg/model/node.go:49-70 | The order of numeric keys is transitive |
| `NodeKeys.KeySortIsStrictOrder` | pkg/model/node.go:49-70 | On different numeric keys the comparison is a strict total order, as sorting needs |
| `NodeKeys.FirstDifferenceDecides` | pkg/model/node.go:49-70 | For all keys: the first components that differ decide, the smaller number first; what is not a number makes the left key first, or else the right one |
| `NodeKeys.AtoiReads` | pkg/model/node.go:59-66 | A component is read as the number written in it, signed or not, as far as 64 bits go |
| `NodeKeys.AncestorFirst` | pkg/model/node.go:52-69 | A key comes before every key below it, and not after |
| `NodeKeys.ParentSortsFirst` | pkg/model/node.go:49-74 | Every key comes after its parent key |
| `NodeKeys.ParentExactly` | pkg/handler/interactive.go:294-303 | A key has a parent exactly if it has a colon |
| `NodeForest.ConvertToDisplayTrees` | pkg/handler/interactive.go:287-311 | One pass with a map hangs every node under the last earlier node that has its parent key, else at the top; every list holds its nodes once, in order |
| `NodeForest.EveryNodeOnce` | pkg/handler/interactive.go:274-285 | Printing shows every listed node exactly once, indented by the number of its ancestors, however siblings are sorted |
| `NodeForest.IndentationShowsParents` | pkg/handler/interactive.go:274-285 | The nearest line above that is indented less is the parent; nodes without parent are not indented |
| `NodeForest.OneWayDown` | pkg/handler/interactive.go:287-311 | Among the nodes hung under one parent exactly one is on the way to any node below it |
| `NodeForest.ParentsAreFound` | pkg/handler/interactive.go:263-272 | In a sorted list keys are distinct and a node hangs under exactly the listed node that has its parent key |
| `NodeForest.IndexKeys` | pkg/handler/interactive.go:264-268 | The number kept for a key is the last index of that key |
| `NodeForest.NumbersSelect` | pkg/handler/dispatch.go:82-90 | The number printed beside a node selects a node of its key; it selects the node itself, for all nodes, exactly when no key is listed twice |
| `Completion.AllAgree` | pkg/common/util.go:88-96 | The inner loop decides whether all strings agree up to a length |
| `Completion.LongestCommonPrefix` | pkg/common/util.go:83-117 | The binary search yields the string whose prefixes are exactly the common prefixes |
| `Completion.FilterPrefix` | pkg/common/util.go:119-129 | The candidates that start with the string, in order |
| `Completion.Complete` | pkg/handler/selectHandler.go:64-81 | A completion is offered exactly for Tab on a non-empty line with candidates; it is their longest common prefix, with the cursor at its end |
| `Completion.BytesAreStable` | pkg/handler/selectHandler.go:64-81 | On bytes, completing only adds to the line, loses no candidate, and completing again changes nothing |
| `Completion.RetypedExactly` | pkg/common/terminal.go:576-578 | The terminal keeps a completion as it is if it is valid text, and makes it longer if it is not |
| `Completion.CandidatesKeptExactly` | pkg/common/terminal.go:568-579 | In the terminal a completed line keeps the candidates it was completed from if and only if the completion is valid text |
| `Completion.TabKeepsExactly` | pkg/common/terminal.go:568-583 | A Tab leaves the terminal's line as it is if and only if no candidate starts with it or those that do have nothing more in common |
| `Completion.SecondTabExactly` | pkg/common/terminal.go:568-583 | Completing twice is completing once if and only if the first completion is valid text, or no candidate starts with what the terminal makes of it, or those that do have nothing more in common |
| `Completion.SecondTabCompletes` | pkg/handler/selectHandler.go:64-81 | Two host names for which a second Tab changes the line |
| `Completion.CompletionIsWhole` | pkg/handler/selectHandler.go:64-81 | A completion of texts that is valid text consists of whole characters of each candidate |
| `Completion.HalfACharacter` | pkg/handler/selectHandler.go:64-81 | Two host names that part inside a character: the completion is half a character and the completed line has lost its candidates |

## Left out

- Display when echo is off, `ReadPassword`, `ReadLines`, `Terminal.Write`, `SetSize`, `SetPrompt` and `writeWithCRLF`: the display theorem is for one prompt, one width and echo on.
- Wide and combining characters: the screen gives every printable code point one cell, as the source does.
- Byte positions in the completion callback and what the callback itself writes: `complete` maps (line, position, key) to a line and a position inside it, as pure code; `Completion` gives the callback's own result on bytes.
- Sharing between the remainder and the input buffer: the remainder is a value; its bound by the 256-byte buffer is kept.
- A read that returns data together with an error: a read either delivers bytes or fails.
- Write errors of the terminal's connection: what is flushed counts as sent.
- Terminals.Terminal.MoveCursorToPos: says nothing about the real cursor when the prompt holds escape sequences, because the source cuts rows counting escape sequences and advances by visible glyphs only; the logical cursor stays within the width all the same.
- Terminals.Terminal.ReadLine: its agreement with decoding at once is stated for streams that settle, because ReadLoop.SplitsAgreeExactly shows that it holds for no others.
- Terminals.Terminal.OtherKey: the completion callback is a pure function, because what it writes goes through `Terminal.Write`, which is left out.
- Waiting for a login confirmation closes the user's connection when it returns, approved or not; the connection is not part of this model.
- `WrapperTable.Initial` (label widths raise the least widths) and drawing the table, which is library code.
- Prefix search of the client manager (`searchChan`): nothing in GoJump uses it; the tick thresholds of recycling: a recycle may happen at any time.
- A recycle is one step of the manager and reads each count once: the source reads it without a lock, so an acquisition in the middle of a recycle is not separated from it.
- SshManager.UserSSHClient.GetClient: that the client found has the largest count is stated for counts that do not change during the scan, because otherwise there is no one moment to speak of; in the protocol a request is one step of the manager.
- Dialling, authentication and opening sessions are choices of success or failure; a session cannot be opened on a client that recycling closed.
- The ticket table is a map with one guarded update, and a new ticket gets an id that no ticket has; SQL, database failures other than a refused update, and the polling interval are not modelled.
- Otp.PasswordsExpire: a goroutine is late by at most some delay, which is a parameter, because without any bound nothing expires; the random password is a parameter.
- LoginLimiter.RunWindow: the length of the window is not modelled, because a timer may fire at any time once it runs.
- `SessionSuccess` looks up and records in one step: nothing can come between, because only the session's own proxy deletes it.
- Bridge: idle and permission limits, termination, window channel and connection loss are one step that may happen at any time; keep-alive and window changes move no data; a write that fails counts as sent, because the loop goes on.
- Registering a signal channel delivers the buffered signals at once; the source starts a goroutine that reads the buffer later.
- Blocking of the request loop on full window, signal and break channels; decoding of string payloads other than pty and window requests, which is library code.
- Pager.SelectHandler.ShowAll: for one page size and unchanged data, because a changed page size can hide items; the page size of the moment and how items are matched are parameters.
- `sort.Sort` and `sort.Strings` are taken to sort; `NodeForest.ParentsAreFound` starts from a sorted list and `NodeKeys.KeySortIsStrictOrder` shows that the order is one that can be sorted by.
- Node names, asset counts and the drawing of branches, which is library code; `EveryNodeOnce` holds for every order of siblings.
- Asset search and selection by number or unique name, admin commands, banners, logging, configuration, replay files, TCP forwarding, the agent listener and the SSH transport: easy members, formatting or library code.
