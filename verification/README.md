# Verification of the zpp_lib drivers and RTOS wrappers

zpp_lib is a C++ layer over Zephyr. This project models the parts of it that carry logic of their own and
proves what they promise:

- **Display** (`Words`, `Pixels`, `Frames`, `Panels`, `Fonts`, `Drawing`, `TextLayout`, `Displays`,
  `DrawingLaws`). `Displays.Display` is a class with the wrapper's fields and its shared byte line buffer;
  every drawing method loops over lines and sends them to a panel. `Panels.Panel` is the device: a framebuffer
  and the log of the writes it was sent. Each method is proved against a function on framebuffers (`Paint`,
  `PaintGlyph`, `DrawText`), and the laws are proved about those functions.
- **Barrier** (`Barrier`). `Barrier::wait` as a transition system: a program counter per thread, the mutex's
  owner, a semaphore that drops releases beyond its limit, a clock that never goes back. The number of callers
  and the number of threads that the barrier was built for are independent and arbitrary.
- **Callback registration** (`Registry`, `Tokens`). `Registry` gives registering and unregistering as functions
  on the register's state and describes what any history leaves. `Tokens` holds the classes: inputs with their
  two maps, records, and the move-only tokens that own registrations. A `Scope` is the ghost set of inputs and
  tokens that are alive; its `Valid` is the ownership invariant. Every operation requires it, and restores it or
  says exactly when it does not. Each input carries the history of what its register was asked to do.
- **Thread** (`Threads`). Start, thunk, join and wait_started as a transition system over any number of objects,
  each used by one client with an arbitrary list of calls. The shared counter has 8 bits.
- **User-mode mutexes** (`MutexPool`). The first-free allocator over the static pool of kernel mutexes.
- **Compile-command filter** (`CompileFilter`). The filter on a command line and the filter on an argument list.

`dafny verify dfyconfig.toml` checks every `.dfy` file of this directory.

## How the code is modelled

Integers have the widths of the sources: `U8`, `U16` and `U32` wrap explicitly, and `Min16` narrows its second
argument as the call `min(uint32_t, uint16_t)` does. No drawing operation restricts coordinates or sizes; where
narrowing or wrap-around makes the result differ from the request, a lemma gives the exact condition.

Everything behind a call into Zephyr is a small contract. `display_write` stores every write that lies on the
panel and fits its buffer, and the model proves at each call that the write does; a panel with swapped axes is
addressed in the rotated coordinates that the wrapper uses. A 32-bit pixel store is little-endian. Whether the
device is ready, how much heap is free, whether plain `char` is signed and what the clock shows are parameters.
Tasks given to threads terminate. A start goes on behind its pool assertion, of which `Threads.PoolFullIff` says
when it can fail. Adding the GPIO driver's callback while it is attached and removing it while it
is not are counted as misuses.

The register embedded in an `InterruptIn` is folded into the class `InterruptIn`. The register's ids are those of
a 32-bit `size_t`. The model has both the GPIO attachment of the hardware build and the `write` of the emulated
build; in the sources a build has one or the other. Registered callbacks do not change the register.

## Where the code and its description part

- A rectangle, icon or glyph whose left edge is past the panel is not clipped away: its column is clamped to the
  last one (`DrawingLaws.OffPanelDrawsLastColumn`). `DrawingLaws.DrawnAsRequested` says exactly when a call
  draws what was asked for.
- `Thread::start` is documented as usable once, but `join` resets `_tid` and a second start succeeds. Then the
  event of an earlier start may still be set, and `wait_started` can return before the latest thread runs
  (`Threads.RestartedWaitIsNot`). `Threads.HastyIff` says for which lists of calls this can happen.
- `get_string_width` widens a plain `char` and `draw_string_at` an `unsigned char`. Where plain `char` is signed,
  text outside 7 bits is measured differently from how it is drawn (`TextLayout.SignedCharCutsText`).
  `TextLayout.AlignedTextIsWhole` says exactly which aligned texts are drawn whole.
- A register id that wraps onto one still in use loses the new callback, and the new token shares the registration
  of the old one (`Registry.WrappedRegistrationIsLost`, `Tokens.InterruptIn.AddCallback`). Enough registrations
  reach such a state (`Registry.NextIdCanBeInUse`).
- `unregister_callback` on an empty register asks the driver to remove a callback it does not hold.
  `Registry.AfterHistory` counts these requests; tokens never make one (`Tokens.UnregisteredOnce`).
- An input that ends before its tokens leaves them with records that are gone (`Tokens.InterruptIn.Destroy`).

## Model

| member | source | states |
|---|---|---|
| Words.Min16 | zpp_drivers/display.cpp:52-54 | never exceeds either argument, and is the minimum whenever the second argument fits 16 bits |
| Words.Min16Narrows | zpp_drivers/display.cpp:52-54 | a second argument wider than 16 bits loses at least 2^16 on the way in |
| Panels.Turned | zpp_drivers/display.cpp:96-104 | a quarter turn either way exchanges the panel's extents, a half turn keeps them |
| Displays.ColorChannels | zpp_include/display.hpp:100-150 | which of blue, green and red a colour lights, in either format, and that it is opaque |
| Displays.ColorBytes | zpp_include/display.hpp:100-150 | the bytes stored for a colour, in either format |
| Displays.FormatsAgree | zpp_include/display.hpp:148-150 | both formats show the same colour in the 24 bits they share |
| Displays.Display.AdaptTo | zpp_drivers/display.cpp:96-104 | the extents are those of the device, exchanged for a quarter turn only |
| Pixels.DecodeEncode | zpp_drivers/display.cpp:407-457 | reading back a stored pixel gives all 32 bits in ARGB8888 and the low 24 bits in RGB888 |
| Pixels.EncodedPixel | zpp_drivers/display.cpp:429-457 | every pixel of an encoded line reads back at its own place in the buffer |
| Pixels.EncodedWordBytes | zpp_drivers/display.cpp:429-437 | pixel k of a line lies in bytes 4k to 4k+3, its lowest byte first |
| Pixels.EncodedBgrBytes | zpp_drivers/display.cpp:439-457 | pixel k of a line lies in bytes 3k to 3k+2: blue, green, red |
| Pixels.DecodedChannels | zpp_drivers/display.cpp:407-457 | what is shown has the stored bytes as its channels |
| Pixels.ColorFillIsLineFill | zpp_drivers/display.cpp:407-457 | filling the room of n pixels with a colour stores the same bytes as encoding a line of n copies of it, for every n and both formats |
| Pixels.FillColorArgb8888 | zpp_drivers/display.cpp:407-414 | the buffer begins with the encoding of repeated colour values, the bytes behind them are untouched |
| Pixels.FillColorRgb888 | zpp_drivers/display.cpp:415-427 | the same with three bytes B, G, R for each pixel |
| Pixels.FillLineArgb8888 | zpp_drivers/display.cpp:429-437 | the buffer begins with the encoding of the source pixels, the bytes behind them are untouched |
| Pixels.FillLineRgb888 | zpp_drivers/display.cpp:439-457 | the same with three bytes B, G, R for each pixel |
| Fonts.LookupFinds | zpp_drivers/display.cpp:69-78 | a lookup yields the first descriptor of the code point, and fails exactly when there is none |
| Fonts.GetCharWidth | zpp_drivers/display.cpp:57-65 | the width of the looked-up descriptor, 0 for a missing character |
| Fonts.FontGetGlyph | zpp_drivers/display.cpp:69-78 | the table index and width of the looked-up descriptor, nothing for a missing character |
| Fonts.RowWord | zpp_drivers/display.cpp:373-377 | the 64-bit word accumulated from a row's bytes, first byte most significant |
| Fonts.WordBit | zpp_drivers/display.cpp:364-388 | for up to eight bytes, bit 8n-1-j of the accumulated word is bit 7-j%8 of byte j/8 |
| Fonts.StoredIs | zpp_drivers/display.cpp:354-370 | a glyph can be drawn when it is narrower than 48 pixels and all its rows lie in the table |
| Fonts.GlyphBitIs | zpp_drivers/display.cpp:364-388 | row i, column j of a glyph is bit 0x80 >> j%8 of the table byte at offset + (width + 7)/8 * i + j/8 |
| Fonts.RowPixels | zpp_drivers/display.cpp:385-397 | pixel j is the foreground exactly when bit j of the row, read from the left, is set |
| Fonts.UnpackRow | zpp_drivers/display.cpp:368-397 | pixel j of row i is the foreground exactly when bit 0x80 >> j%8 of table byte offset + (width + 7)/8 * i + j/8 is set, and the background otherwise |
| Drawing.Clip | zpp_drivers/display.cpp:183-192 | the area that a call reaches lies on the panel and is no larger than asked for, whatever the coordinates |
| Drawing.PaintGlyphNextRow | zpp_drivers/display.cpp:368-403 | drawing row i as a one-line image over the first i rows draws the first i+1 rows, with lines wrapping at 2^32 and rows off the panel skipped |
| Drawing.PaintedCell | zpp_drivers/display.cpp:343-405 | row i, column j of a placed glyph lands on line y+i, column x+j, and shows the bit that the table stores for it |
| Displays.Display.Initialize | zpp_drivers/display.cpp:82-145 | each error exactly under its condition; the extents are the device's, exchanged for a quarter turn only; the line buffer holds the longer side at 4 or 3 bytes a pixel |
| Displays.Display.FillColor | zpp_drivers/display.cpp:180 | the installed routine fills the whole line buffer with the colour |
| Displays.Display.FillRectangle | zpp_drivers/display.cpp:167-203 | the clipped rectangle shows the colour, every other pixel keeps its value, and the writes are one per line with only the last marked complete |
| Displays.Display.FillDisplay | zpp_drivers/display.cpp:155-158 | every pixel of the panel shows the colour, by its blue, green, red and alpha, written line by line |
| Displays.Display.DrawVerticalLine | zpp_drivers/display.cpp:205-216 | a rectangle as wide as the thickness and as high as the length |
| Displays.Display.DrawHorizontalLine | zpp_drivers/display.cpp:218-227 | a rectangle as wide as the length and as high as the thickness |
| Displays.Display.DrawIcon | zpp_drivers/display.cpp:229-260 | the clipped rectangle shows the image, rows taken a full image width apart and read only inside the image; other pixels keep their value; one write per line |
| Displays.Display.FillRgbRect | zpp_drivers/display.cpp:459-491 | the same for 32-bit coordinates |
| Displays.Display.DisplayChar | zpp_drivers/display.cpp:343-405 | the glyph's bits appear in foreground and background at the clipped position; a missing character draws nothing; every write is a complete line that the device accepts |
| Displays.Display.GetStringWidth | zpp_drivers/display.cpp:270-277 | the 16-bit sum of the widths of the widened characters |
| Displays.Display.DrawStringAt | zpp_drivers/display.cpp:302-335 | the frame shows exactly the glyphs of the drawn prefix, each at the start column plus the width before it; every write is a complete line that the device accepts |
| Displays.Display.DrawStringAtLine | zpp_drivers/display.cpp:279-299 | the same from the aligned start column, at the line's multiple of the font height |
| Displays.UnclippedChar | zpp_drivers/display.cpp:322-334 | a character that ends on the panel is drawn whole at its column: clipping does not change it |
| DrawingLaws.DrawnAsRequested | zpp_drivers/display.cpp:183-198 | clipping draws the visible part of the rectangle asked for if and only if MeetsRequest holds |
| DrawingLaws.MeetsRequest16 | zpp_drivers/display.cpp:229-248 | for 16-bit arguments that condition is: left edge on the panel, or nothing to draw |
| DrawingLaws.DrawnPixel | zpp_drivers/display.cpp:183-198 | every pixel after a drawing at an on-panel column: inside the rectangle asked for it shows the source, everywhere else it keeps its value |
| DrawingLaws.OffPanelDrawsLastColumn | zpp_drivers/display.cpp:183-184 | a rectangle starting one column past the panel still reaches the last column |
| DrawingLaws.FillSplits | zpp_drivers/display.cpp:191-193 | on every frame, a fill and the fills of its upper and lower part agree if and only if the bottom edge does not wrap, or the upper part is invisible or already shows the colour |
| DrawingLaws.DisjointDrawingsCommute | zpp_drivers/display.cpp:167-203 | drawings over disjoint areas can be made in either order |
| DrawingLaws.ImagePixel | zpp_drivers/display.cpp:237-259 | row r, column c of an image at an on-panel column lands at (x+c, y+r) and is source pixel r*width+c |
| DrawingLaws.WritesAcceptable | zpp_drivers/display.cpp:184-198 | every write of a call stays on the panel and within a line buffer for the longer side, in both formats and all rotations; exactly the last write is complete |
| TextLayout.DrawnIsLongestPrefix | zpp_drivers/display.cpp:322-328 | a non-empty prefix is drawn whole if and only if its right edge fits the panel |
| TextLayout.DrawnWhole | zpp_drivers/display.cpp:322-328 | the whole text is drawn if and only if it is empty or its right edge fits |
| TextLayout.TextPixel | zpp_drivers/display.cpp:323-334 | a pixel in the columns of character k shows the bit of that character's glyph: glyphs never overwrite one another |
| TextLayout.TextCell | zpp_drivers/display.cpp:323-334 | row i, column j of character n lands on line y+i, j columns behind the characters before it, and shows the bit that the table stores for it |
| TextLayout.TextOutside | zpp_drivers/display.cpp:323-334 | a pixel outside the strip of the text keeps its value |
| TextLayout.ColumnOwner | zpp_drivers/display.cpp:323-334 | every column of the strip belongs to exactly one character |
| TextLayout.StripOnPanel | zpp_drivers/display.cpp:322-328 | the strip of the drawn prefix ends on the panel, and one more character would leave it |
| TextLayout.StringPixel | zpp_drivers/display.cpp:302-335 | for every pixel: inside the strip of the drawn prefix it shows the glyph bit of the one character that owns its column, everywhere else it keeps its value |
| TextLayout.MeasuredIsWidth | zpp_drivers/display.cpp:270-277 | the measured width is the drawn width modulo 2^16, for text that is widened alike in both places |
| TextLayout.WidenKeepsValue | zpp_drivers/display.cpp:273-274 | widening a char to 32 bits keeps the value it has, negative ones included |
| TextLayout.SignedMeasuresSevenBit | zpp_drivers/display.cpp:270-277 | with signed char, and no code points from 0xFFFFFF80 up in the font, only the 7-bit characters are measured |
| TextLayout.AlignedTextIsWhole | zpp_drivers/display.cpp:279-299 | for any text and either widening: an aligned text is drawn whole if and only if it is empty, or narrower than the panel and placed by its measured width so that it fits |
| TextLayout.PlainTextIsWhole | zpp_drivers/display.cpp:279-299 | under every alignment, a text measured as it is drawn is drawn whole if and only if it is narrower than the panel, however long it is |
| TextLayout.AlignedPlacement | zpp_drivers/display.cpp:281-297 | for any text, right alignment puts its measured width at the edge and centring leaves margins that differ by the parities of panel and text, with the exact exceptions that column 1 replaces |
| TextLayout.TooWideFallsBack | zpp_drivers/display.cpp:279-318 | a text that measures at least as wide as the panel starts at column 1, also when the subtraction wraps; where the 16-bit sum itself wraps, it does exactly when the rest of its width says so |
| TextLayout.SignedCharCutsText | zpp_drivers/display.cpp:270-277 | with signed char there is a text that would fit and is nevertheless cut off |
| TextLayout.StartColumn | zpp_drivers/display.cpp:306-318 | text starts at a column from 1 to 0x7FFF |
| Barrier.CountdownZero | zpp_rtos/barrier.cpp:67-68 | the wrapping countdown shows 0 at the arrival numbered total and at no other |
| Barrier.StepInv | zpp_rtos/barrier.cpp:63-99 | every step of every thread keeps the invariant on the mutex, countdown, tokens and stamps |
| Barrier.RunInv | zpp_rtos/barrier.cpp:63-99 | the invariant holds in every state of every run, for any number of callers |
| Barrier.NonePassesEarly | zpp_rtos/barrier.cpp:67-96 | no thread gets past the semaphore before total threads have counted down |
| Barrier.AllReturnTheStamp | zpp_rtos/barrier.cpp:70-98 | the time is stamped at most once and every thread that returns, returns it; at most total threads return |
| Barrier.MutualExclusion | zpp_rtos/barrier.cpp:63-88 | at most one thread is between locking and unlocking |
| Barrier.ReturnedTimeWasRead | zpp_rtos/barrier.cpp:68-98 | in a run in which a thread has returned, exactly one step read the time; the value returned is what the clock showed then, when all had counted down and none had passed the semaphore |
| Barrier.StampBetween | zpp_rtos/barrier.cpp:63-99 | the value returned lies between every arrival and every departure |
| Barrier.ReturnedTimeIsBetween | zpp_rtos/barrier.cpp:63-99 | over any run, the value a thread returns lies between the time of every call and the time of its own return |
| Barrier.StuckOutcome | zpp_rtos/barrier.cpp:67-96 | a run that cannot go on has returned total threads, or none when fewer called; no token is left and the mutex is free |
| Barrier.AllReturnIff | zpp_rtos/barrier.cpp:67-96 | every caller of every maximal run returns if and only if there are exactly total callers |
| Barrier.RunsAreFinite | zpp_rtos/barrier.cpp:63-99 | a run has at most callers * (total + 8) steps |
| Registry.RegisterConsistent | zpp_drivers/interrupt_in.cpp:154-163 | registering never misuses the driver and keeps it in step with the map; while ids do not wrap, it adds the callback under a new id |
| Registry.UnregisterConsistent | zpp_rtos/callback_register.cpp:60-66 | unregistering keeps the driver attached exactly while there are callbacks; it misuses the driver exactly on an empty register |
| Registry.AlwaysConsistent | zpp_rtos/callback_register.cpp:45-75 | after any history, wrapped ids included, the driver is attached exactly while there are callbacks |
| Registry.InOrderInsert | zpp_rtos/callback_register.cpp:51-53 | a callback with the next id is executed after all others |
| Registry.InOrderRemove | zpp_rtos/callback_register.cpp:60-61 | removing a callback keeps the order of the others |
| Registry.AfterHistory | zpp_rtos/callback_register.cpp:45-75 | after any history without id wrap-around the register holds the live callbacks in order, the driver is attached exactly when there are any, and it was misused exactly once per removal from an empty register |
| Registry.LiveIsStillRegistered | zpp_rtos/callback_register.cpp:45-66 | the live callbacks are exactly those registered and not removed since, each once, in registration order |
| Registry.WrappedRegistrationIsLost | zpp_rtos/callback_register.cpp:51-55 | a registration adds an entry if and only if the next id is not in use; otherwise it leaves the map as it was |
| Registry.AfterChurn | zpp_rtos/callback_register.cpp:51-66 | one callback that stays and n that come and go leave the id counter at n + 1 modulo 2^32 |
| Registry.NextIdCanBeInUse | zpp_rtos/callback_register.cpp:51-53 | some history reaches a register whose next id is in use |
| Registry.ProperIsFaultless | zpp_rtos/callback_register.cpp:60-75 | a history that only removes what is registered never misuses the driver |
| Registry.GoneForGood | zpp_rtos/callback_register.cpp:51-66 | while ids do not wrap, a removed id does not come back |
| Registry.DroppedOnce | zpp_rtos/callback_register.cpp:60-66 | in such a history no registration is removed twice |
| Registry.UsedIsStillRegistered | zpp_rtos/callback_register.cpp:51-75 | the ids in use are those of the registrations that nothing has removed |
| Tokens.InterruptIn.constructor | zpp_drivers/interrupt_in.cpp:44 | an input begins with an empty register and joins the scope |
| Tokens.InterruptIn.AddCallback | zpp_drivers/interrupt_in.cpp:139-164 | a null function yields a token that owns nothing, any other a token that owns the registration of the next id; the ownership invariant is kept if and only if that id was not in use, and otherwise the new token shares the registration of another |
| Tokens.InterruptIn.RegisterCallback | zpp_rtos/callback_register.cpp:51-58 | both maps gain the next id, with a new record that carries it and its owner; an id in use keeps its callback and its record |
| Tokens.InterruptIn.UnregisterCallback | zpp_rtos/callback_register.cpp:60-66 | both maps lose the id, if they have it, and the driver is told to detach when none is left |
| Tokens.InterruptIn.UnregisterAllCallbacks | zpp_rtos/callback_register.cpp:68-75 | both maps are emptied, and the driver is detached if there were callbacks |
| Tokens.InterruptIn.ExecuteCallbacks | zpp_rtos/callback_register.cpp:45-49 | runs every registered callback once, in ascending order of ids; while ids have not wrapped, these are the callbacks that the history registered and did not remove, in registration order |
| Tokens.InterruptIn.Write | zpp_drivers/interrupt_in.cpp:123-135 | stores the value, and runs the callbacks exactly on a transition from released to pressed |
| Tokens.InterruptIn.Destroy | zpp_drivers/interrupt_in.cpp:102-106 | the register is emptied and the driver detached, whatever was registered; the ownership invariant is kept if and only if no token still owned a registration of the input |
| Tokens.RegistrationToken.Reset | zpp_rtos/registration_token.cpp:51-56 | the token's own registration is ended and nothing else changes; the ownership invariant is kept |
| Tokens.RegistrationToken.Move | zpp_rtos/registration_token.cpp:41 | the new token owns what the other owned, and the other owns nothing |
| Tokens.RegistrationToken.Take | zpp_rtos/registration_token.cpp:46 | ownership moves between two live tokens, and every record still has exactly one owner |
| Tokens.RegistrationToken.MoveAssign | zpp_rtos/registration_token.cpp:43-49 | a registration that is overwritten is ended, the other token's is taken over; self-assignment changes nothing |
| Tokens.RegistrationToken.Destroy | zpp_rtos/registration_token.cpp:37-39 | the end of a token's life ends its registration |
| Tokens.UnregisteredOnce | zpp_rtos/registration_token.cpp:37-56 | over any run that kept the ownership invariant, while ids did not wrap: no registration was removed twice, the driver was never misused, and tokens own exactly the registrations that nothing has removed |
| Tokens.Scope.AfterAdd | zpp_rtos/callback_register.cpp:51-58 | one new registration held by one new token keeps tokens and live records in bijection |
| Tokens.Scope.AfterReset | zpp_rtos/registration_token.cpp:51-56 | ending one registration keeps them in bijection |
| Threads.StepInv | zpp_rtos/thread.cpp:101-276 | every step keeps each object's invariant, and the 8-bit counter equals the number of threads counted and not yet discounted, modulo 256 |
| Threads.RunInv | zpp_rtos/thread.cpp:101-276 | the same in every state of every run, for any number of objects and any lists of calls |
| Threads.CounterNeverUnderflows | zpp_rtos/thread.cpp:194-272 | in every reachable state with fewer than 256 threads counted the counter is that number, and it is at least 1 at every decrement; with fewer than 256 objects no increment wraps |
| Threads.PoolHasRoom | zpp_rtos/thread.cpp:111-113 | with no more objects than stacks the pool assertion of start holds |
| Threads.PoolFullIff | zpp_rtos/thread.cpp:111-113 | some run reaches the pool assertion with a full pool if and only if more lists of calls reach a start than there are stacks |
| Threads.JoinedTaskRanOnce | zpp_rtos/thread.cpp:206-275 | each thread runs its task once; when join returns, every thread started has run its task and been discounted |
| Threads.FirstWaitIsSound | zpp_rtos/thread.cpp:202-258 | after a first start, wait_started returns only once the thread has signalled |
| Threads.WaitReturnsWhileRunning | zpp_rtos/thread.cpp:202-266 | wait_started can return while the task is still running |
| Threads.StartReturnsWhileRunning | zpp_rtos/thread.cpp:101-109 | a second start returns while the task is running, and creates no thread |
| Threads.RestartedWaitIsNot | zpp_rtos/thread.cpp:202-258 | after a second start it can return before the thread has: a run that shows it |
| Threads.HastyIff | zpp_rtos/thread.cpp:202-258 | some run lets a wait_started return before the latest thread has signalled if and only if the list of calls restarts the thread while an earlier start is unanswered and waits before the next join, with no wait before it that blocks for ever |
| Threads.StuckMeansFinished | zpp_rtos/thread.cpp:101-276 | no deadlock: when nothing can move, every call has returned, every thread is over, every mutex is free and the counter is 0 |
| Threads.BlockedIff | zpp_rtos/thread.cpp:101-276 | a client can be blocked for ever if and only if some wait_started of its calls has no start of its own to answer it |
| Threads.RunsAreFinite | zpp_rtos/thread.cpp:101-276 | a run has at most 20 steps for each call |
| MutexPool.Pigeonhole | zpp_rtos/mutex.cpp:78-89 | a free slot exists if and only if the number of busy slots is below the total |
| MutexPool.Pool.Construct | zpp_rtos/mutex.cpp:69-99 | fails exactly when the pool is full; otherwise takes the first free slot, whose kernel mutex is unlocked, and keeps slots and live mutexes in bijection |
| MutexPool.Pool.Destruct | zpp_rtos/mutex.cpp:101-119 | finds the mutex's own slot, frees it and leaves its kernel mutex unlocked, even if it was locked |
| MutexPool.LiveMutexesApart | zpp_rtos/mutex.cpp:75-95 | two live mutexes never share a kernel mutex |
| MutexPool.Pool.Lock | zpp_rtos/mutex.cpp:128-138 | one attempt to lock succeeds exactly on a mutex that is free or held by the same thread, raising its level; a refused attempt changes nothing |
| MutexPool.Pool.Unlock | zpp_rtos/mutex.cpp:161-171 | unlocking succeeds exactly for the thread that holds the mutex, lowers its level and frees it at the last one; a refused call changes nothing |
| CompileFilter.SplitJoin | scripts/filter_compile_commands.py:43-70 | splitting a joined list of clean tokens gives the list back |
| CompileFilter.SpacesAre | scripts/filter_compile_commands.py:43 | blanks, tabs and line ends are white space, visible ASCII characters are not |
| CompileFilter.SplitAt | scripts/filter_compile_commands.py:43 | white space anywhere separates the words before it from the words behind it |
| CompileFilter.JoinAppend | scripts/filter_compile_commands.py:70 | joining puts one blank between any two parts |
| CompileFilter.DroppedIs | scripts/filter_compile_commands.py:16-28 | the tokens that are dropped, spelled out |
| CompileFilter.IsGccIs | scripts/filter_compile_commands.py:66 | a compiler name is replaced exactly when "gcc" or "g++" occurs somewhere in it |
| CompileFilter.FilteredIsShaped | scripts/filter_compile_commands.py:65-69 | the result is the surviving tokens, the first replaced by "clang++" exactly when it names GCC, and the two extra arguments |
| CompileFilter.FilterCommand | scripts/filter_compile_commands.py:42-70 | the result is the joined filtered list of the words: the survivors, the first replaced by "clang++" exactly when it names GCC, and the two extra arguments |
| CompileFilter.FilterArguments | scripts/filter_compile_commands.py:91-110 | the result is the filtered list: the survivors, the first replaced by "clang++" exactly when it names GCC, and the two extra arguments |
| CompileFilter.FiltersAgree | scripts/filter_compile_commands.py:42-110 | on clean tokens, filtering the joined command is joining the filtered list |
| CompileFilter.ScanKeepsSurvivors | scripts/filter_compile_commands.py:47-63 | the loop keeps, in order, exactly the tokens that are no strip flag, no sysroot pattern and no value of a bare --sysroot, also in rows of bare tokens |
| CompileFilter.SurvivesIs | scripts/filter_compile_commands.py:47-63 | a token behind no bare --sysroot survives exactly when it is not dropped; the value of a bare --sysroot does not |
| CompileFilter.SurvivorsInOrder | scripts/filter_compile_commands.py:44-63 | the survivors are the surviving positions of the input, in increasing order |
| CompileFilter.NothingToDropRemains | scripts/filter_compile_commands.py:42-70 | no strip flag or sysroot pattern is left in the result |
| CompileFilter.FilterTwice | scripts/filter_compile_commands.py:91-110 | filtering twice is filtering once and appending the extra arguments again |
| CompileFilter.FilterCommandTwice | scripts/filter_compile_commands.py:42-70 | the same for every command line |

## Left out

- Tokens.UnregisteredOnce: requires that ids have not wrapped; what happens when they do is stated by Tokens.InterruptIn.AddCallback.
- Tokens.InterruptIn.Destroy: what tokens do after their input has ended. The register's destructor, which invalidates the records still in its map, finds the map already emptied and is not modelled.
- Tokens.InterruptIn.ExecuteCallbacks: callbacks that register or unregister while they are being executed are excluded.
- Panels.Panel.DisplayWrite: always succeeds; the sources only log a failing write.
- Displays.Display.DisplayChar: requires that a glyph it draws is narrower than 48 pixels, which the sources assert, and lies inside the font's table, which they rely on. The string methods require this of the characters that are drawn and of no others.
- Barrier.AllReturnIff: one barrier, used once. Reuse, several barriers sharing the static start time, and the test build's zero-time callback are not modelled.
- Threads.CounterNeverUnderflows: increment and decrement are single steps. In the sources they are made under the mutexes of different objects, and nothing makes them atomic.
- Threads.StuckMeansFinished: one client for each Thread object. Several simultaneous joiners, the join in the destructor and failing kernel calls are not modelled.
- Threads: the exclusive use of stack slots, which is not assured when threads end out of order; the user-mode branch.
- MutexPool.Pool.Lock: one attempt to lock. Waiting for a mutex, with or without a timeout, is the kernel's; mutexes that alias another's kernel mutex are not modelled.
- Pools of user-mode events and semaphores.
- Device-tree and pin selection, GPIO configuration and reading, `DigitalOut`, display blanking and logging.
- Message queues, work queues, tickers, time and sleeping, whose behaviour is the kernel's.
- The mapping of kernel error codes to results.
- In the filter script, reading and writing JSON and selecting entries by file extension.
