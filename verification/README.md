# Folksong's configuration engine, in Dafny

Folksong reads an nginx-style configuration: a character scanner with eight flags takes
directives from a windowed file, a dispatcher offers each directive to the commands of a
table of modules and keeps a stack of open blocks, and the modules that were used are
started at the end. On top of it sit a splitter for template strings, an assembler for HTTP
request headers with lookups over them, and a parser for durations. This project models
these parts and proves properties of them for all inputs.

How the parts fit together:

- `Lexer.dfy` describes the language as a lexer over suffixes of the text. `Scanner.dfy`
  is the flag loop over a buffer that is refilled, with the second loop that decodes a
  token's raw slice; it computes the lexer's result. `Printer.dfy` prints trees of
  directives and proves the round trip, `Layout.dfy` that layout may be put in anywhere
  between tokens. `Characters.dfy` says the same things with every character written out.
- `Queue.dfy`, `Arr.dfy` and `RunStack.dfy` are the intrusive circular list, the growable
  array and the block stack built on both, as objects that are changed in place. `Room.dfy`
  and `Liveness.dfy` follow the stack's pointers into the array through its growth.
- `Dispatch.dfy` defines what one directive does. It never pushes a frame it would have to
  take back, so it is simpler than the source. `Handler.dfy` is the source's order of
  events (push, call, roll back) on the heap structures, proved to do the same.
  `Walk.dfy` reads a tree recursively, with no stack at all; the stack machine agrees with
  it. `Invariants.dfy` and `Records.dfy` hold the properties of every run, and
  `Outcomes.dfy` says which replies of the callbacks accept, refuse and stop what.
- `Driver.dfy` joins scanner and dispatcher: what a text reads as through a window of any
  size, and the run over that. `PrintedConfiguration` and `ConfigurePrinted` sum up the path
  from a printed tree to the started modules.
- `Template.dfy` and `Paths.dfy`, `Http.dfy`, and `Timer.dfy` (with `Decimal.dfy`) are the
  parts on top.

Modules' callbacks are arbitrary functions. A callback sees the history of all earlier
callbacks, the open frames and the directive's tokens (`Modules.Env`), so its reply may
depend on anything the configuration did before. What C leaves uninitialised is arbitrary
too: the content of a fresh context slot and the local `first` of `fs_conf_handle`. Where
the source would read or write what is not there, the model's outcome is `Undefined`,
`Lost`, `Broken` or `Crashed`, or one of the flags `stale` (released memory was read) and
`spilt` (something was written past its memory) is set; nothing is claimed of the source
after it. A context is read by its place in the array, which is what the source reads as
long as `stale` is not set.

Six promises fail in the code that is modelled, and the exact condition is proved for each:

- Reading through a window is not reading the whole text. The scanner remembers where a
  token began as a place in the buffer, and a refill overwrites the buffer. A token comes
  out right if and only if its opening character and its closing delimiter are in the same
  window (`Scanner.ReadRight`), and a file is read as it stands if and only if this holds of
  every token of its directives and those of a cut-off directive can be read
  (`Driver.WellReadExactly`). `Driver.TornToken` is a file of 4098 characters, for the
  source's buffer of 4096, that cannot be read. A file that fits the buffer is always read
  as it stands (`Driver.SmallFileWellRead`).
- A command that passes should leave no trace. It leaves the modules' records alone if and
  only if it is no sub-block or its module never had an array of contexts
  (`Records.PassKeepsRecords`). Otherwise the source takes back a context that the
  sub-block never stored: one of a directive accepted before
  (`Records.SubBlockPassLosesContext`), or one from an array already released
  (`Records.SubBlockPassAfterRelease`); both are whole runs. Over a whole run, for any
  table, the modules' contexts are those of their accepted directives if and only if no
  directive passes over such a sub-block (`Records.KeptExactly`). In a table in which no
  module has both a passing sub-block and commands of its own, none ever does
  (`Records.SafeTable`, `Records.KeptAlways`). Folksong's own modules are of that kind: the
  Kafka listener's sub-block passes only when it is not the innermost frame, which it always
  is.
- A configured header name should find its header. A scanned token's size counts the raw
  characters, so it does if and only if the name was written as itself, without an escape
  that stands for another character (`Http.NameMatches`). The legal name it's, written
  'it\'s', is never found (`Http.EscapedNameNotFound`).
- An open block should keep seeing its own context. Its frame holds a pointer into the
  array of contexts, and the array is released when it grows. After a push every pointer is
  live if and only if there was room or nothing was open (`RunStack.Run.Push`). A block that
  has ended gives no slot back, so a block with an eighth sub-block reads released memory,
  and one with seven does not (`RunStack.SubBlocks`). Which runs do is said exactly by
  `Liveness.StaleRun`; no configuration with fewer than eight accepted directives that take
  a slot does (`Liveness.RoomyRun`, `Driver.Configure`).
- A name, a value or a path of a request may come in pieces. A piece after the first stays
  inside its memory if and only if it meets the test for growing, which is the reverse of
  what is needed (`Http.AppendInside`); so, no later piece being empty, a string stays
  inside if and only if it came in one piece (`Http.BuiltInside`, `Http.HeadersInside`).
- A rewritten path should stay inside its memory. It does if and only if no literal follows
  anything that was already written (`Template.SetNextPath`); `Template.SpiltPath` is an
  instance.

## Model

| member | source | states |
|---|---|---|
| Scanner.Conf.NextToken | src/core/fs_conf.c:131-335 | one call of the scanner, on any text, position and window size: it reports the kind, the number of tokens and the rest of the text that the lexer's `Scan` gives, every token is `Read` of the expected word, it crashes only on a word that cannot be read, and the line counter stays one plus the line feeds consumed |
| Scanner.Turn | src/core/fs_conf.c:163-284 | one character against the flags: what is left to scan is unchanged, and a token that ends is the one the lexer takes, closing delimiter included |
| Scanner.Decode | src/core/fs_conf.c:284-321 | the decoding loop stops at the delimiter, stays inside a buffer of the raw length plus one, and writes the decoded slice and a terminator |
| Scanner.DecodedQuoted | src/core/fs_conf.c:255-321 | on a quoted token the decoding loop, which peeks at the delimiter, gives the unescaped slice the scanning loop delimited |
| Scanner.DecodedBare | src/core/fs_conf.c:279-321 | on an unquoted token the delimiter can never be mistaken for an escaped character |
| Scanner.ReadRight | src/core/fs_conf.c:152-161 | a token is read right if and only if it lies in one window; otherwise it comes out shorter or not at all |
| Scanner.TornIsUnreadable | src/core/fs_conf.c:284-290 | a token cannot be read at all exactly when its raw slice is shorter than the windows refilled since it began, so any straddling token shorter than the buffer cannot |
| Scanner.ScanProper | src/core/fs_conf.c:225-321 | every token of a scan stands in the text, and both loops agree on its raw slice |
| Characters.DecodedText | src/core/fs_conf.c:293-318 | the six escapes, written out: `\"`, `\'` and `\\` stand for their second character, `\t`, `\r` and `\n` for a tab, a carriage return and a line feed, and any other pair for itself |
| Characters.QuotedToken | src/core/fs_conf.c:180-281 | between quotes of either kind, any characters and any backslash pairs but the bare quote; what is glued to the closing quote, pairs included, is dropped, but a `$` at its end is remembered |
| Characters.BareToken | src/core/fs_conf.c:236-282 | without quotes, any characters and any backslash pairs but space, tab, carriage return, line feed, `;`, and `{` where no `$` opened it |
| Characters.LeadingBackslash | src/core/fs_conf.c:219-223 | a backslash that begins a token is dropped, whatever comes after it |
| Characters.Separated | src/core/fs_conf.c:180-217 | spaces, tabs, carriage returns and line feeds, in any number and mixture, separate two tokens; `;` and `{` end the directive |
| Characters.OneToken | src/core/fs_conf.c:250-282 | and no other character does, but for the backslash and the `$` |
| Characters.NothingEnds | src/core/fs_conf.c:152-157 | a text without `;`, `{` and `}` has no directive; what the end cuts off is dropped |
| Characters.StaleDollar | src/core/fs_conf.c:260-263 | a `$` glued to a closing quote makes a `{` in the next token part of that token |
| Characters.LinesAreLineFeeds | src/core/fs_conf.c:165-171 | the line counter counts the line feeds and nothing else |
| Scanner.Conf.Refill | src/core/fs_file.h:74-89 | a refill keeps the text that is left to scan and moves the window to where it ended |
| Scanner.Conf.NextChar | src/core/fs_conf.c:152-169 | the next character of the text whatever the window, none at its end, with the line feeds counted |
| Scanner.Conf.TakeToken | src/core/fs_conf.c:284-321 | the token added is what the window's slice decodes to; the slice that would begin past its end is the crash |
| Printer.EscapedChar | src/core/fs_conf.c:293-316 | each escape the scanner knows stands for the character it was printed for, and does not end a quoted token |
| Printer.LexPrintedWord | src/core/fs_conf.c:225-282 | any string printed between quotes of either kind, and any plain string printed bare, variables in braces included, scans as itself |
| Printer.PrintedDirective | src/core/fs_conf.c:131-335 | a printed directive, nested to any depth and laid out in any way, scans as its own events followed by those of the rest |
| Printer.RoundTrip | src/core/fs_conf.c:88-112 | scanning a printed list of trees gives exactly the events of the trees in textual order, then the end of the file |
| Layout.LayoutIgnored | src/core/fs_conf.c:163-217 | in any text, white space and comments put in where the scanner is between tokens change no event |
| Arrays.Arr.Push | src/core/fs_arr.c:27-45 | pushing appends, into the same elements if there is room and else into new ones, twice as many; all copying so far is less than twice the number of pushes |
| Queues.Queue.InsertAfter | src/core/fs_queue.h:28-34 | the ring stays one cycle with mutually inverse links, with the new link after the given one |
| Queues.Queue.InsertBefore | src/core/fs_queue.h:36-42 | the same before the given link; before the head is the end of the list |
| Queues.Queue.Remove | src/core/fs_queue.h:44-48 | the same without the given member |
| Queues.Queue.IsEmpty | src/core/fs_queue.h:25-26 | the head points at itself exactly when there are no members |
| RunStack.Run.Push | src/core/fs_run.h:89-97 | a new innermost frame with a new, highest slot; the places of the open frames hold what they held, and their pointers are all live afterwards if and only if nothing was open, or all were live and the array had room |
| RunStack.Run.Pop | src/core/fs_run.h:75-81 | the innermost frame goes, the others and their pointers are unchanged, no slot is given back, the depth is the length of the stack |
| RunStack.Run.Unwind | src/core/fs_conf.c:411-412 | giving back the last slot and popping undoes a push, except that an array that grew stays grown |
| RunStack.Run.PushInheriting | src/core/fs_conf.c:397-404 | a sub-block's frame gets what the place of the frame around it holds, and there has to be one; that is read from released memory unless the pointer around was live and the array had room |
| RunStack.Run.SetTopCtx | src/core/fs_run.h:54-58 | setting the innermost frame's slot changes no other frame |
| RunStack.SubBlocks | src/core/fs_run.c:17 | a block with n sub-blocks one after another: from the eighth on the context they inherit is read from released memory |
| Rooms.EnterLive | src/core/fs_arr.c:30-42 | taking a slot leaves every pointer live if and only if there was room or there were none |
| Rooms.GrowsAt | src/core/fs_arr.c:30-42 | frames opened one after another make the array grow exactly at the ninth, the seventeenth, the thirty-third, and so on: it doubles |
| Liveness.StaleExactly | src/core/fs_conf.c:381-404 | a candidate reads released memory exactly when it is a command inside a block whose pointer is not live, or a sub-block for which the array grows |
| Liveness.StaleRun | src/core/fs_conf.c:344-458 | a run reads released memory exactly when it comes to the turn of such a candidate, or to the end of a block whose pointer is not live and whose module hears of it |
| Liveness.RoomyRun | src/core/fs_conf.c:88-112 | a run in which fewer accepted directives take a slot than the array has reads no released memory, and all pointers stay live |
| RunStack.Run.Snapshot | src/core/fs_run.h:45-73 | following the links from the head visits the frames from the innermost out |
| Dispatch.MatchesBytes | src/core/fs_str.h:87-88 | comparing over the shorter size, terminator and leftovers counted, is the test whether the command's token is a prefix of the name |
| Dispatch.CandidatesSorted | src/core/fs_conf.c:362-368 | the candidates come in strict table order |
| Dispatch.CandidatesExact | src/core/fs_conf.c:362-379 | they are exactly the fitting commands before their module's end mark, none missed |
| Handler.Dispatcher.SubBlock | src/core/fs_conf.c:397-446 | a sub-block pushed, called and rolled back leaves stack and slots as the reference definition says |
| Handler.Dispatcher.Own | src/core/fs_conf.c:397-418 | a block or single command with a context of its own; when `init_mod` passes, stack and slots are as before |
| Handler.Dispatcher.OwnWith | src/core/fs_conf.c:420-458 | the context is stored, the handler called, and on a pass everything taken back; a single command is completed and popped |
| Handler.Dispatcher.Offer | src/core/fs_conf.c:381-460 | one candidate: what it leaves is what the definition without rollback gives, and after a pass the frames and the number of slots are those before |
| Handler.Dispatcher.Choose | src/core/fs_conf.c:360-466 | the two loops over modules and commands do what trying the fitting commands in table order does |
| Handler.Dispatcher.Handle | src/core/fs_conf.c:337-467 | one directive on the heap structures is one step of the state machine, errors included |
| Walk.DirectivesAreWalk | src/core/fs_conf.c:344-458 | from any open frames the stack machine on a tree's events makes the callbacks of the recursive walk, with the same arguments and results, and ends with the same open frames |
| Walk.PrintedRunIsWalk | src/core/fs_conf.c:88-112 | printing a tree, scanning the text and dispatching it is the recursive walk |
| Invariants.NestedAlways | src/core/fs_conf.c:397-427 | in every reachable state a sub-block's frame has the context of the frame around it, and any other frame was accepted with the context it holds |
| Invariants.ContextOfOwner | src/core/fs_conf.c:401-408 | hence each frame has the context of its nearest enclosing frame that is no sub-block |
| Invariants.RecordedInOrder | src/core/fs_conf.c:362-466 | a run that is not stopped has accepted each of its directives once, in textual order |
| Invariants.SettledAlways | src/core/fs_conf.c:349-355 | in every reachable state each accepted directive that is to be completed is either still open or was completed exactly once with its own context; sub-blocks never are |
| Outcomes.TryExactly | src/core/fs_conf.c:381-458 | a candidate's callbacks are asked in turn, `init_mod`, handler and the completion of a single command, until one does not reply OK: it takes the directive exactly when all reply OK and is refused exactly when one replies an error, or when it is a command inside a block and nothing is open; the calls made are these, with these arguments |
| Outcomes.TookExactly | src/core/fs_conf.c:383-427 | what is recorded and what a block's frame holds |
| Outcomes.PassedExactly | src/core/fs_conf.c:407-443 | what a pass leaves in the records, and in `first` for the candidates after it |
| Outcomes.FailedLeaves | src/core/fs_conf.c:416-446 | on an error nothing is taken back |
| Outcomes.CloseExactly | src/core/fs_conf.c:344-358 | a `}` closes the innermost block exactly when there is one and its module, if it is to hear of it, replies OK to its completion with that block's context; else it is an error |
| Outcomes.AcceptedByReply | src/core/fs_conf.c:344-466 | after every run the accepted directives are exactly those whose handlers replied OK, in the order of the calls; in a run that is not stopped no callback replied an error and every completion replied OK |
| Outcomes.StoppedExactly | src/core/fs_conf.c:344-466 | a run is stopped exactly when it comes to a `}` with nothing open or whose module does not reply OK, or to a directive for which all candidates pass or one is refused |
| Outcomes.Balanced | src/core/fs_conf.c:344-358 | a run that is not stopped has closed no block that was not open, and as many blocks are left open as were opened and not closed |
| Records.FirstDecides | src/core/fs_conf.c:362-466 | the first fitting candidate in table order that does not pass decides; it is an error if there is none |
| Records.PassKeepsRecords | src/core/fs_conf.c:430-443 | for callbacks that pass a candidate over: `used` and the stored contexts stay as they were if and only if it is no sub-block or its module never made an array of contexts |
| Records.OutcomeByReply | src/core/fs_conf.c:381-443 | a candidate passes exactly when its callbacks do, unless it has no outcome: exactly a sub-block with nothing open, or a passing one whose module's array is empty or released |
| Records.SubBlockPassLosesContext | src/core/fs_conf.c:435-437 | a run from the start in which a module's only accepted context is lost when its sub-block passes |
| Records.SubBlockPassAfterRelease | src/core/fs_conf.c:435-441 | a run from the start in which the passing sub-block's module is not in use, and its released array is changed again |
| Records.KeptExactly | src/core/fs_conf.c:420-443 | for any table: after a run each module has stored exactly the contexts of its accepted directives in textual order, and is used exactly when there is one, if and only if no directive of the run passes over a sub-block whose module has or had an array |
| Records.SafeTry | src/core/fs_conf.c:381-443 | with a safe table a candidate passes exactly when its callbacks do, leaves the records as they were then, and has no outcome exactly as a sub-block with nothing open |
| Records.PassedOverKeeps | src/core/fs_conf.c:410-443 | with a safe table the candidates before the deciding one leave no mark on the records |
| Records.KeptAlways | src/core/fs_conf.c:420-426 | with a safe table that holds after every run |
| Records.LostExactly | src/core/fs_conf.c:344-466 | for any table: a run ends without an outcome exactly when it comes to a directive without a token or to a candidate without an outcome |
| Records.SafeNoOutcome | src/core/fs_conf.c:344-466 | with a safe table that is a directive without a token or, with nothing open, one at which a sub-block's turn comes |
| Driver.Parse | src/core/fs_conf.c:88-128 | on any text, position and window size, parsing is the run of the state machine over what the text reads as, up to the first error or the first token that cannot be read; the array of contexts and the pointers into it end up as that run leaves them |
| Driver.WellReadExactly | src/core/fs_conf.c:152-161 | a text reads as its own directives if and only if no token of a directive straddles a refill and the tokens of a directive cut off by the end can be read |
| Driver.TornToken | src/core/fs_conf.c:17 | 4095 spaces and then `ab;`, through the source's buffer of 4096: the token cannot be read, and reading the file has no outcome |
| Driver.SmallFileWellRead | src/core/fs_conf.c:68-72 | a file that fits the buffer reads as its own directives |
| Driver.InitedAll | src/core/fs_mod.c:24-35 | the used modules are started once each, in table order, with their stored contexts |
| Driver.StartsMatch | src/core/fs_mod.c:24-35 | these are exactly the modules with an accepted directive, with exactly its contexts |
| Driver.Configure | src/core/fs_conf.h:57-66 | reading a whole file of any contents through a window of any size and starting the modules, from nothing; released memory is read exactly as `Liveness.StaleRun` says, and not at all with fewer than eight accepted directives that take a slot |
| Driver.PrintedConfiguration | src/core/fs_conf.h:57-66 | for a printed tree that the walk accepts, and any table: nothing is left open, every directive is accepted once in order, all completions owed are made, the accepted directives are those whose handlers replied OK and no callback replied an error; the modules' contexts are their own, and they are started with these, if and only if no directive takes back what is not its own |
| Driver.ConfigurePrinted | src/core/fs_conf.h:57-66 | the same for the heap structures and a printed file of any size that reads as it stands, as any file that fits the buffer does: accepted if and only if the walk is, with the walk's callbacks and then the starts |
| Template.VarParse | src/core/fs_var.c:18-60 | the loop over characters, appending in place, gives the split of the template; no token outgrows its buffer |
| Template.SplitPartitions | src/core/fs_var.c:18-60 | the tokens are non-empty literals and variables in canonical order and concatenate to the text, on a failure to a prefix of it |
| Template.SplitOfConcat | src/core/fs_var.c:18-60 | every canonical list of tokens is the split of its own text |
| Template.SplitFails | src/core/fs_var.c:33-42 | a template is rejected if and only if some brace occurs with no variable open, and the tokens are then the text before the first such brace |
| Template.SplitAppend | src/core/fs_var.c:18-60 | splitting distributes over a text whose first part ends with nothing open |
| Template.ExpandComposes | src/mod/http/proxy.c:198-217 | so does expanding, under any values of the variables |
| Template.ExpandToSelf | src/mod/http/proxy.c:198-217 | variables that stand for their own text give the template back |
| Template.SetNextPath | src/mod/http/proxy.c:190-283 | the loop over the tokens builds the expansion under the captures of the path, and stops where a variable's value is not defined; it writes past the path's memory if and only if a literal follows something already written |
| Template.SpiltPath | src/mod/http/proxy.c:202-211 | a template for which it does |
| Paths.VariableMeaning | src/mod/http/proxy.c:225-283 | a variable's value, for all names and numbers: the group of that number, empty beyond the expression's groups, undefined beyond an int or past the list; the group of that name; empty for any other variable; undefined for a name of 128 characters or a token cut short within the prefix |
| Paths.GroupByNumber | src/mod/http/proxy.c:241-250 | the decimal numeral of a number stands for the group of that number |
| Paths.PathOfTemplate | src/mod/http/proxy.c:198-283 | a template written from literals, groups and variables splits into them and expands to their values in order |
| Paths.Rewrite | src/mod/http/proxy.c:190-283 | parsing such a template and building the path from it, on the heap structures, gives that path; it writes past the path's memory exactly when a literal follows something already written |
| Http.AppendInside | src/mod/fs_mod_http.c:344-355 | a piece stays inside its memory if and only if it is the first or meets the test for growing |
| Http.BuiltInside | src/mod/fs_mod_http.c:344-355 | the pieces make the whole text; no later piece being empty, they stay inside if and only if there is one |
| Http.InsideAfterEmpty | src/mod/fs_mod_http.c:344-355 | an empty piece makes the memory grow, and exactly a next piece of at most two characters more than the first then fits |
| Http.Request.OnUrl | src/mod/fs_mod_http.c:238-245 | a piece of the path is joined, and the path's memory grows or not as in the source |
| Http.Request.OnHeaderField | src/mod/fs_mod_http.c:247-271 | a piece of a name begins a new name or extends the last one, its memory included; names and values stay in step |
| Http.Request.OnHeaderValue | src/mod/fs_mod_http.c:273-297 | the same for a piece of a value |
| Http.ChunkingIgnored | src/mod/fs_mod_http.c:247-297 | however the names and values are cut into pieces, the arrays end up holding them whole and in order, each with the memory its own pieces give it |
| Http.HeadersInside | src/mod/fs_mod_http.c:247-297 | exactly the names and values that came in more than one piece were written past their memory |
| Http.NothingLost | src/mod/fs_mod_http.c:247-297 | whatever pieces arrive, every character ends up in its own array, in order |
| Http.Request.Lookup | src/mod/http/kafka.c:315-363 | a non-empty capture, else the value of the first header whose name matches, else the default, else an error; the value's index is in range. The key's lookup at lines 365-412 is the same |
| Http.EscapesShorten | src/core/fs_conf.c:293-316 | a token's text is as long as its raw slice exactly when the slice holds no escape that stands for another character, and is then the slice itself |
| Http.NameMatches | src/mod/http/kafka.c:334-342 | for the buffer of any scanned token: a header's name matches it if and only if the token was written as the name itself, without such an escape |
| Http.EscapedNameNotFound | src/mod/http/kafka.c:335-337 | a legal header name that the token standing for it never matches |
| Http.LookupAssembled | src/mod/http/kafka.c:322-363 | a lookup in a request that came in any pieces: what the path captured if that is not empty, else the whole value of the first header of the configured name, if the name was written without such an escape, else the default |
| Http.LookupUnnamed | src/mod/http/kafka.c:322-363 | the same when no name is configured: capture, default or an error |
| Timer.ParseTime | src/mod/fs_mod_timer.c:178-220 | a duration's digits times its unit, with an overflow reported exactly when the product does not fit 63 bits; anything else is rejected, and the buffer is as before on every path |
| Timer.PrintedDuration | src/mod/fs_mod_timer.c:187-214 | a printed number and unit mean their product |
| Timer.Spelled | src/mod/fs_mod_timer.c:187-214 | the units and their factors, spelled out for every number |
| Timer.FitsLongLong | src/mod/fs_mod_timer.c:187-214 | a product fits exactly if it is less than two to the power of 63 |
| Timer.AcceptedDurations | src/mod/fs_mod_timer.c:187-217 | exactly digits followed by one of the units are accepted; the digits may be missing |
| Decimal.ValueOfAppended | src/mod/fs_mod_timer.c:187-189 | the value of digits put together is positional, to the base ten |
| Decimal.ValueOfNumeral | src/mod/fs_mod_timer.c:187-189 | reading a printed number gives it back |

## Left out

- Template.SetNextPath: a template is a plain character sequence without the terminator a scanned token counts, and a variable's name holds no terminator.
- Arrays.Arr.Push: capacities are unbounded integers and memory never runs out; this holds for all allocations.
- Liveness.RoomyRun: counts the core's own reads of a context; what a callback reads through the frames below its own is not counted.
- The modules' records are values in a sequence, not objects of their own; a released array of contexts is one that is no longer read.
- A directive without a token: the source goes by the name the token array held before (src/core/fs_conf.c:360). The model's outcome is undefined.
- A sub-block with nothing open: the source copies from the list's head (src/core/fs_conf.c:403). The model's outcome is undefined.
- A read that fails or comes back short, and the unset result of `fs_file_read` on success (src/core/fs_file.h:81-88), which is taken for success.
- `fs_gmod_init` and a second configuration in the same process: the modules begin unused with no contexts.
- The bodies of the modules' callbacks, PCRE, http-parser, libuv, librdkafka, processes, sockets and logging.
- The choice of a route by its match callback and the joining of a request's body: easy loops with nothing more to say.
- The last character of a command line's configuration is dropped by `fs_str_set` (src/core/fs_str.h:65); `Conf.FromParam` takes the text as it is.
