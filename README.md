# OML interpreter core in Dafny

OML is a small stack-based esoteric language. Its interpreter, `OML.c`, is
written in C and reads a program as a byte string. Each byte is a command
that works on a main stack of `int64_t` values. The interpreter also keeps:

- a "stack of stacks" for the `[`/`]` sub-stack brackets;
- 256 register stacks (`t`, `u`);
- 256 variables (`f`, `g`);
- the input and output numeral bases.

This project models:

- the array-backed `STACK`;
- the integer helpers the opcodes use;
- the interpreter state (`struct OML`);
- `OML_exec_cmd`, for every command that does not talk to the outside world;
- `OML_run`.

Each step is proved against a reference semantics. Properties of that
semantics are then proved as lemmas.

Modules:

- `Int64s` (`int64.dfy`): 64-bit two's-complement wrap-around, C's
  truncating `/` and `%`, the bitwise operators on bit patterns, 32-bit
  truncation for the `int` numeral bases, `size_t` arithmetic, and signed
  `char`.
- `Wrappers` (`wrappers.dfy`): `Option` and `Result`.
- `Stacks` (`stack.dfy`): `STACK` as a class over an `array<Int64>` with
  `size` and `capacity`. The stack discipline (`Top`, `Drop`, `Popped`,
  `DropN`, `Reverse`) is defined on sequence values.
- `Numeric` (`numeric.dfy`):
  - `factorial`, `icbrt`, `isqrt`, `is_power`, `char_to_in_digit`;
  - the digit loop of `to_base`;
  - the power-of-ten loop of the `T` opcode.
  Each loop is a method proved against a reference definition (floor roots,
  `n!`, digit sequences, powers).
- `Scanner` (`scanner.dfy`): the four scans that move the cursor:
  - the forward bracket scan of `(` and `{`;
  - the backward bracket scan of `)`;
  - the string-literal scan of `"`;
  - the comment scan of `e\`.
  Each is a loop proved equal to a recursive definition, and that definition
  is characterised by bracket depth.
- `Semantics` (`semantics.dfy`): the interpreter state as a value (`Vm`), the
  decoding of bytes into commands, and what each command does
  (`Effect`, `Exec`, `Step`). `Run` is `OML_run` with a fuel bound.
  Undefined behaviour in the C code stops the run with a `Trap` (see below).
- `StackCommands` (`commands.dfy`): each main-stack command as the C code
  does it: the same `stack_pop`/`stack_push`/`stack_shift` calls in the same
  order, with the same temporary stacks. Each is proved to produce the
  stack its `Effect` function describes.
- `Machine` (`machine.dfy`): `struct OML` as the class `Oml`. `ExecCmd` is
  proved equal to `Semantics.Step` and `Run` to `Semantics.Run`.
- `Properties` (`properties.dfy`): lemmas about the semantics:
  - round trips (`\` twice, `,` twice, `Z` and `z`, `[` then `]`);
  - C division;
  - the meaning of `R`, `K` and the string literal;
  - the bracket scans pairing the same brackets in both directions.

Where the C code's behaviour is undefined, where the program would never
end, or where it reads array slots the model does not track, the model
stops with a `Trap`:

- division by zero, or `MIN / -1`;
- reading the byte after the last one (`'`, `f`, `g`, `t`, `u`, `e`).
  A program read by `read_file` has no terminator there, so the read is
  undefined; a program given on the command line has its NUL there (see
  "Left out");
- a bracket scan running off the code;
- `stack_shift` on an empty stack (`z`, or `[` with a count larger than the
  stack);
- `K` asking for more values than the stack holds;
- `c` with an index that names no element of the stack;
- `b` with an index that names no element of the stack, except index -1,
  whose slot just above the stack still holds the popped index and is
  pushed. Other such indices read a stale slot of the array or memory
  outside it (see `StackCommands.DoPick` under "Left out");
- `a` with a shift count outside 0..63;
- `M` on the most negative value, `N` on a negative value, and a `T` loop
  that never ends;
- `V` with an output base below 2 on a positive value.

In a few places the code does something other than OML's own command
reference describes. The model follows the code:

- `u` pops a register stack. It does not collapse the stack into one number.
- `v`, `w`, `e{` and `e(` do not exist in this revision: they do nothing.
- `e` followed by a byte it does not test does nothing.

## Model

| member | source | states |
|---|---|---|
| `Stacks.Stack.constructor` | OML.c:59-65 | `stack_init`: an empty stack whose capacity is `INITIAL_STACK_CAPACITY` (16), with size below capacity |
| `Stacks.Stack.Resize` | OML.c:71-78 | `stack_resize`: a fresh array of the new capacity that holds the old array's elements; size and capacity unchanged |
| `Stacks.Stack.Push` | OML.c:80-87 | `stack_push`: the contents gain `v` on top; the capacity doubles exactly when the push fills the array, so size stays below capacity |
| `Stacks.Stack.Unshift` | OML.c:89-100 | `stack_unshift`: the contents become `[v]` followed by the old contents |
| `Stacks.Stack.MoveUp` | OML.c:97 | the `memmove` of `stack_unshift`: `data[..n]` moves up one place; slot 0 and everything above `n` are unchanged |
| `Stacks.Stack.Pop` | OML.c:102-109 | `stack_pop`: returns the top and removes it; on an empty stack returns 0 and the stack stays empty; the array is not modified, so the freed slot still holds the popped value |
| `Stacks.Stack.Shift` | OML.c:111-116 | `stack_shift`: returns the bottom element; the rest keep their order |
| `Stacks.Stack.PopFrom` | OML.c:118-124 | `stack_pop_from`: returns the element at `index` and removes it; the others keep their order |
| `Stacks.Stack.Peek` | OML.c:126-130 | `stack_peek`: the top, or 0 on an empty stack; nothing changes |
| `Stacks.Stack.PushAll` | OML.c:139-143 | `stack_push_int_array`: the contents gain the array's elements, first to last |
| `Stacks.Stack.Clear` | OML.c:145-147 | `stack_clear`: the contents become empty and the array is kept |
| `Stacks.PoppedSuffix` | OML.c:102-109 | popping as many values as `w` holds off `u + w` returns `w` top first and leaves `u` |
| `Stacks.PoppedAt` | OML.c:102-109 | popping more values than a stack holds returns its elements top first, then zeros |
| `Numeric.Factorial` | OML.c:159-173 | `factorial`: 0 for a negative argument; otherwise `n!` wrapped to 64 bits, which is exactly `n!` up to 20 |
| `Numeric.FactFits` | OML.c:159-173 | `n!` fits in an `int64_t` for every `n <= 20`, so `factorial` is exact there |
| `Numeric.Icbrt` | OML.c:176-196 | `icbrt`: the floor cube root for `0 <= n < 2^33`; the negated floor root of `-n` for `-2^33 < n < 0`; saturates at ±2047 beyond |
| `Numeric.CbrtOfUnique` | OML.c:176-196 | any result meeting `icbrt`'s contract is the unique value `CbrtOf(n)` the `M` opcode pushes |
| `Numeric.Isqrt` | OML.c:199-217 | `isqrt`: the floor square root for `0 <= num < 2^32`; saturates at 65535 from 2^32 on |
| `Numeric.SqrtOfUnique` | OML.c:199-217 | any result meeting `isqrt`'s contract is the unique value `SqrtOf(num)` the `N` opcode pushes |
| `Numeric.IsPower` | OML.c:223-227 | `is_power`: true exactly when `num` equals `base^k` for some `k >= 0` |
| `Numeric.ToBase` | OML.c:237-244 | the digit loop of `to_base` (filling the buffer from its end with `n % base`, dividing by `base`) yields exactly the digit sequence `Digits(n, base)`; none for `n <= 0` |
| `Numeric.DigitsSpec` | OML.c:237-244 | every digit the loop produces is in `0..base-1`; for `n > 0` there is at least one and the first is not zero; for `n >= 0` the digits read back (most significant first) as `n` |
| `Numeric.DigitsOfValue` | OML.c:237-244 | conversely, any sequence of digits in `0..base-1` without a leading zero is what the loop produces for the number it reads as, so the digit sequence of a number is unique |
| `Numeric.JoinScale` | OML.c:568-576 | the `T` loop: the first power of ten (wrapped to 64 bits) above `y`, or none when the wrapped power reaches 0 and the loop would never end |
| `Numeric.CharToInDigit` | OML.c:305-307 | `char_to_in_digit`: `0`-`9` map to 0..9 and `a`-`z` to 10..35 |
| `Numeric.AlphabetRoundTrip` | OML.c:305-307 | `char_to_in_digit` inverts the `ALPHABET` digit table: the character for digit `d` reads back as `d` |
| `Scanner.MatchForwardSpec` | OML.c:407-421 | the forward scan returns the first `close` after `i` at which the bracket depth returns to zero; it returns none when the depth stays positive to the end |
| `Scanner.ScanForward` | OML.c:407-421 | the scan loop of `(` and `{` returns what `MatchForward` defines, a position after `i` inside the code |
| `Scanner.MatchBackwardSpec` | OML.c:422-436 | the backward scan returns the nearest `open` before `i` at which the depth behind `i` returns to zero; it returns none when the depth stays positive to the start |
| `Scanner.ScanBackward` | OML.c:422-436 | the scan loop of `)` returns what `MatchBackward` defines, a position before `i` |
| `Scanner.StringEndSpec` | OML.c:368-386 | the literal ends at the first quote not followed by another quote, or at the end of the code; no earlier position closes it |
| `Scanner.ScanString` | OML.c:370-380 | the scan loop of `"` returns `StringEnd` |
| `Scanner.LineEndSpec` | OML.c:833-837 | the comment scan stops at the first newline, or at the end of the code |
| `Scanner.ScanLine` | OML.c:834-836 | the scan loop of `e\` returns `LineEnd` |
| `Semantics.Initial` | OML.c:898-910 | `OML_init`: empty main stack, stack of stacks and registers; cursor 0; the given variables |
| `Semantics.Upto` | OML.c:611-616 | what `Y` pushes: `0, 1, ..., n - 1`, nothing for `n <= 0` |
| `Semantics.Copies` | OML.c:768-775 | what `x` pushes: `n` copies of the value, nothing for `n <= 0` |
| `Semantics.Exec` | OML.c:359-896 | a command that does not stop the run leaves the cursor within 0..`|code|` (at `|code|` after an unclosed `"`); only `)` moves it backwards |
| `Semantics.Step` | OML.c:807-808 | an `e` first steps onto the byte it reads; only a `)` byte moves the cursor back |
| `Semantics.RunNext` | OML.c:912-919 | a run that does not stop at its first command continues from the byte after where that command leaves the cursor |
| `Semantics.StringPushes` | OML.c:368-386 | `"` stops the cursor on the first quote after it that is not followed by another quote (or at the end of the code) and pushes the bytes in between, last first, then their count |
| `StackCommands.JoinValue` | OML.c:568-576 | `T`'s value is `x * 10^k + y` for the first wrapped power of ten above `y`, or a trap when the loop cannot end |
| `Numeric.ScaleBelowLimit` | OML.c:568-576 | for `y` below 10^18 the power `T` multiplies by is exactly `10^w`, `w` the number of decimal digits of `y` (1 below 10), so `T` appends `y`'s digits to `x` |
| `StackCommands.DoBinary` | OML.c:437-446 | `*`, `+`, `-`, `/`, `%`, `&`, bitwise or, `^`, the comparisons, `a`, `T`: pop `b`, pop `a`, push `a op b`; division by zero, `MIN / -1` and a bad shift count trap |
| `StackCommands.UnaryValue` | OML.c:536-543 | the value of `!`, `_`, `~`, `M`, `N`, `m`, `n`, `e!` on the popped value, using `Factorial`, `Icbrt` and `Isqrt` |
| `StackCommands.DoUnary` | OML.c:364-367 | pop `a`, push the unary operator applied to it |
| `StackCommands.DoDivMod` | OML.c:458-463 | `.`: pop `b`, pop `a`, push the truncated quotient and then the remainder |
| `StackCommands.DoSwap` | OML.c:447-452 | `,`: the two top values change places |
| `StackCommands.DoDup` | OML.c:472-476 | `:`: the top value (0 on an empty stack) is duplicated |
| `StackCommands.DoOver` | OML.c:477-483 | `;`: pop `b`, pop `a`, push `a`, `b`, `a` |
| `StackCommands.DoRot` | OML.c:503-510 | `@`: pop `c`, `b`, `a`, push `c`, `a`, `b` |
| `StackCommands.DoCopyTop` | OML.c:526-532 | `K`: pop `n`, push a copy of the top `n` values in order; traps when fewer than `n` remain |
| `StackCommands.DoRotateTop` | OML.c:553-563 | `R`: pop `n`, pop `n` values, push them back in the order popped |
| `StackCommands.DoToBinary` | OML.c:577-583 | `U`: pop `n`, push its binary digits, most significant first |
| `StackCommands.DoTriple` | OML.c:605-610 | `X`: the top value appears three times |
| `StackCommands.DoCount` | OML.c:611-616 | `Y`: pop `n`, push `0` to `n - 1` |
| `StackCommands.DoBury` | OML.c:617-620 | `Z`: the top value moves to the bottom |
| `StackCommands.EnterSub` | OML.c:621-630 | `[`: pop `count`; the bottom `size - count` values (a `size_t` difference) move, bottom first, onto the stack of stacks, followed by how many moved; fails exactly when that difference exceeds the stack |
| `StackCommands.DoReverseAll` | OML.c:631-640 | `\`: the stack's contents are reversed |
| `StackCommands.LeaveSub` | OML.c:641-647 | `]`: pop `count` off the stack of stacks, then move that many values from it to the bottom of the main stack, one `stack_unshift` each |
| `StackCommands.DoPick` | OML.c:667-671 | `b`: pop an index counted from the top, push a copy of that value; index -1 pushes the stale slot `data[size]`, which holds the popped index; traps on any other index outside the stack |
| `Properties.PickCopies` | OML.c:667-671 | `b` with index `k` from 0 copies the value `k` places below the top; with index -1 it pushes -1 |
| `StackCommands.DoRoll` | OML.c:672-677 | `c`: pop an index counted from the top, move that value to the top, the others keeping their order; traps outside the stack |
| `StackCommands.DoKeepTop` | OML.c:678-682 | `d`: only the top value is kept |
| `StackCommands.DoRepeat` | OML.c:768-775 | `x`: pop the count, pop the value, push the value that many times |
| `StackCommands.DoUnbury` | OML.c:776-780 | `z`: the bottom value moves to the top; traps on an empty stack |
| `StackCommands.PushLiteral` | OML.c:380-384 | `"`: the literal's bytes are pushed last first as signed `char`s, then their count |
| `StackCommands.Reshape` | OML.c:359-896 | every main-stack-only command produces exactly the stack `Effect` describes, or its trap |
| `Machine.Oml.constructor` | OML.c:898-910 | `OML_init`: the state is `Initial`, with fresh stacks and arrays |
| `Machine.Oml.DoOutput` | OML.c:584-593 | `V`: pop `n`, push its digits in `OUTPUT_BASE`; nothing for `n <= 0`; traps for an output base below 2 |
| `Machine.Oml.DoOpenSub` | OML.c:621-630 | `[` on the whole state, including the nesting depth, which counts up in `size_t` |
| `Machine.Oml.DoCloseSub` | OML.c:641-647 | `]` on the whole state, including the nesting depth, which counts down in `size_t` |
| `Machine.Oml.Settings` | OML.c:547-552 | `P`, `Q` set a numeral base to the popped value truncated to `int`; `p`, `q`, `r` push a base or the nesting depth |
| `Machine.Oml.DoStore` | OML.c:683-686 | `f`: step onto the next byte and pop into that variable |
| `Machine.Oml.DoLoad` | OML.c:687-690 | `g`: step onto the next byte and push that variable |
| `Machine.Oml.DoStash` | OML.c:756-761 | `t`: step onto the next byte and pop onto that register stack |
| `Machine.Oml.DoUnstash` | OML.c:762-767 | `u`: step onto the next byte and pop that register stack onto the main stack |
| `Machine.Oml.DoChar` | OML.c:403-406 | `'`: step onto the next byte and push it as a signed `char` |
| `Machine.Oml.DoString` | OML.c:368-386 | `"`: push the literal and its length; the cursor stops on the closing quote |
| `Machine.Oml.Branch` | OML.c:407-436 | `(` skips to its matching `)` when the peeked top is 0; `)` jumps back to its matching `(` when it is not; `{` pops and skips to its `}` on 0; an unmatched bracket traps |
| `Machine.Oml.Execute` | OML.c:359-896 | one command changes the whole state as `Exec` says |
| `Machine.Oml.ExecExtended` | OML.c:807-808 | an `e` steps the cursor onto the next byte and runs the extended command it names, as `Exec` says; an `e` as the last byte traps |
| `Machine.Oml.ExecCmd` | OML.c:807-895 | `OML_exec_cmd` on the byte under the cursor, `e` prefix included, is `Step` |
| `Machine.Oml.Tick` | OML.c:914-917 | one turn of `OML_run`'s loop: the command, then the step past it, keeps the rest of the run on course for the same outcome |
| `Machine.Oml.Run` | OML.c:912-919 | `OML_run` ends, halts or runs out of fuel exactly as `Semantics.Run` says, and the cursor is rewound to 0 at the end |
| `Properties.ReverseAllTwice` | OML.c:631-640 | `\` twice restores the stack |
| `Properties.SwapTwice` | OML.c:447-452 | `,` twice restores the stack; `,` leaves everything below the top two alone |
| `Properties.BuryUnbury` | OML.c:617-620 | `Z` then `z` and `z` then `Z` restore a non-empty stack |
| `Properties.DivModSpec` | OML.c:458-463 | `.` traps exactly on a zero divisor or `MIN / -1`; otherwise `a == b*q + r`, `Abs(r) < Abs(b)` and `r` takes `a`'s sign |
| `Properties.RotateTopReverses` | OML.c:553-563 | `R` with a count equal to the length of `w` reverses the values `w` on top |
| `Properties.CopyTopCopies` | OML.c:526-532 | `K` with a count equal to the length of `w` copies the values `w` on top above themselves, in order |
| `Properties.CbrtOdd` | OML.c:176-196 | `icbrt` is odd: any two results meeting `Icbrt`'s contract for `n` and for `-n` are negatives of each other |
| `Properties.OpenSubKeepsTop` | OML.c:621-630 | `[` succeeds exactly when the popped `count` is at least 0 and at most the number of values left after the pop, and then keeps the top `count` of those values |
| `Properties.OpenThenClose` | OML.c:641-647 | `]` right after `[` restores the main stack without the count, the stack of stacks and the nesting depth |
| `Properties.StringReadsBack` | OML.c:368-386 | popping after `"` returns the literal's length, then its bytes first to last, and then the earlier stack |
| `Properties.SkipIfZeroSpec` | OML.c:407-421 | `(` on a non-zero top changes nothing; on 0 it lands on the first `)` that closes it, or traps when none does |
| `Properties.ForwardThenBackward` | OML.c:407-436 | the `)` that `(` skips to scans back to that same `(` |
| `Properties.BackwardThenForward` | OML.c:407-436 | the `(` that `)` jumps back to scans forward to that same `)` |

## Left out

- The commands that do I/O stop the run with `External`, and are not modelled further:
  - `#`, `O`, `W`, `o`, `s`, `h`, `i`, `j` (printing and reading numbers and characters);
  - `e#`, `ee`, `ei` (printing and reading);
  - `?` (random numbers);
  - `em`, `en`, `eo`, `ep`, `eq` (stacks on the heap, addressed by pointers);
  - `eA`, `eC`, `ec` (the C library's character classes).
- `stack_destroy`, `stack_display`, `print_int`, `input_int`, `is_valid_in_char`, `read_file`, `OML_exec`, `show_help` and `main` deal with memory release, I/O and the command line, and are not part of this model.
- The floating-point size estimate in `to_base` only sizes the buffer. The digits do not depend on it, so the model returns the digits themselves. For `n <= 0` (`U` and `V` on a non-positive value) the estimate is `round(log(n) / log(base))` of -inf (n = 0) or NaN (n < 0), and its conversion to `size_t` is undefined in C; the model pushes no digits there, which is what common compilers end up doing, instead of trapping.
- Signed 64-bit overflow (`+`, `-`, `*`, `_`, `m`, `n`, `!`, `T`) is undefined in C. The model wraps it in two's complement, as common compilers do.
- A failed `realloc` in `stack_resize` is not modelled: allocation always succeeds.
- Undefined behaviour (see the trap list above) stops the run instead of continuing with whatever the C program would do. Examples: `stack_shift` on an empty stack, `c` with index -1, whose `size_t` move count wraps.
- The NUL terminator of a program given on the command line is not modelled. There `main` sets the length with `strlen`, so the byte after the last one is 0. A trailing `'` then pushes 0, a trailing `f`, `g`, `t` or `u` uses slot 0, and a trailing `e` does nothing. The model traps with `ReadPastEnd` in all these cases, as it does for a program read from a file, where that byte is not part of the buffer.
- `StackCommands.DoPick`: the model does not track the array slots from `data[size]` up, which `stack_pop` leaves holding earlier values (or never-written ones). It traps wherever `b` would read one of them, except index -1, whose slot is the popped index. In the C code only an index `k = size - index - 1` with `k < 0` or `k >= capacity` is out of bounds; any other slot holds a value, so `123$$2_b` ends with `[1, 3]` there while the model traps.
- `Stacks.Stack.Shift`: requires a non-empty stack, because the C function reads `data[0]` and wraps `size` on an empty one. Its callers check first and trap.
- `Semantics.Run` and `Machine.Oml.Run` take a fuel bound, because an OML program can loop forever. A run that uses up its fuel reports `OutOfFuel`.
- The initial contents of `vars` are a constructor parameter, because the C code leaves them uninitialised.
- The 256 register stacks are kept as sequence values in an array, not as 256 array-backed stacks. Their growth and capacity are not modelled.
- `INPUT_BASE` and `OUTPUT_BASE` are C globals. Here they are fields of the interpreter object.
- The second `^` branch (OML.c:653-657) can never run, since the first `^` branch catches every `^`.
- `Numeric.IsPower`: requires a non-zero `num` and `|base| >= 2`, because otherwise the C loop never ends or divides by zero. No opcode calls it.
- `Numeric.Icbrt`: requires `n` to be other than the most negative value, whose negation overflows and makes the C function recurse forever.
- `Numeric.Isqrt`: requires `num >= 0`, because the C loop never ends on a negative argument. `N` traps there instead.
- `Properties.OpenSubKeepsTop` and `Properties.OpenThenClose` assume the main stack holds at most 2^63 - 1 values, so that its size fits in an `int64_t`.
