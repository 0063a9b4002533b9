# printf imitations

A model of the two small output functions in `main.cpp` that imitate C's
`printf`, with proofs of what they write.

- `cstyle_printf(fmt, ...)` reads the format string from left to right and
  uses C variadic arguments. `%d`, `%s` and `%f` each write the next
  argument as an `int`, a `const char *` or a `double`. Any other `%x` pair
  writes `%` and skips `x`. A `%` in the last position that the scan
  reaches alone, and not as the second character of a `%x` pair, is copied.
  Every other character is copied too. So `a%%` writes `a%`: the first `%`
  pairs with the last one, writes `%`, and the last one is skipped.
- `cpp_printf(fmt, args...)` uses variadic templates. With no argument it
  writes `fmt`. Otherwise it copies `fmt` up to its first `%`. If there is
  no `%`, that is all it writes. If there is one, it writes the first
  argument and recurses on the remaining arguments with the template from
  that `%` on.

The model returns the text that would be written to `std::cout`:

- `CStyle.CStylePrintf` is a method with the same loop as `cstyle_printf`.
  The body of the loop, the `switch` on the character after `%`, is the
  method `CStyle.Turn`. The loop is proved equal to a specification:
  `Scan` splits the format string into pieces, and `Emit` renders the
  pieces while taking arguments from the front.
- `CppStyle.CppPrintf` is a recursive method with the same iterator loop
  and recursion as `cpp_printf`. It is proved equal to the function
  `CppText`.
- `Decimal` renders integers the way `std::cout << int` does and proves
  that the rendering can be read back.

`cpp_printf` is modelled as the code is written. The comment at
main.cpp:66 says each `%` is replaced by the next argument. The recursive
call at main.cpp:78, however, receives `std::string(it, fmt.cend())`, and
that string still starts with the `%` that was just used. So every later
argument is written at the same first `%`, and the whole template from
that `%` on is written after the last argument
(`CppStyle.CollapseAtFirstPercent`). For example, `cpp_printf("a%b%c", x, y)`
writes `a`, x, y, `%b%c` (`CppStyle.TwoArgumentsOnePlace`). The model
follows the code here, not the comment's description of per-`%`
replacement.

## Model

| member | source | states |
|---|---|---|
| CStyle.CStylePrintf | main.cpp:11-48 | The loop writes exactly `Emit(Scan(fmt), args)`: the format string's pieces in order, with each placeholder replaced by its argument. It reads exactly one argument per placeholder, and this holds whenever the arguments match the placeholders' kinds. |
| CStyle.Turn | main.cpp:22-46 | One turn of the loop at position i writes exactly the text of the scan's next piece and moves i by that piece's width (2 for a pair, 1 otherwise). It takes one argument for a placeholder and none otherwise. |
| CStyle.LoopInvariant | main.cpp:20-46 | The loop's invariant at position i: the output so far followed by what the rest of the scan writes with the remaining arguments is the whole output, the arguments taken plus the placeholders left is the total, and the remaining arguments fit the remaining placeholders. |
| CStyle.LoopStart | main.cpp:17-20 | Before the first turn, with nothing written and no argument taken, the invariant holds whenever the arguments fit the placeholders. |
| CStyle.Advance | main.cpp:20-46 | One turn keeps the invariant: writing the next piece's text, moving i by its width and taking its arguments gives the invariant at the new position. |
| CStyle.LoopEnd | main.cpp:20-47 | When i reaches the end, the output is exactly `Emit(Scan(fmt), args)` and the number of arguments taken is the number of placeholders. |
| CStyle.Scan | main.cpp:20-46 | The left-to-right scan: a `%` with a character after it forms a pair with that character (a placeholder for `d`, `s`, `f`, otherwise a dropped pair), and every other character is a piece of its own. Its properties are stated by ScanSources, SourcesScan, ScanWellFormed and ScanAppend. |
| CStyle.Emit | main.cpp:24-46 | What the pieces write in order, taking arguments from the front: a copied character itself, a dropped pair `%`, a placeholder the next argument's text. Its properties are stated by EmitCons, EmitAt, EmitAppend and EmitIgnoresExtra. |
| CStyle.PieceText | main.cpp:24-46 | The text one piece writes, as the `switch` does: a copied character itself, a dropped pair `%` (the `default` case), and a placeholder the text of the first remaining argument. EmitCons and EmitAt place it within the whole output. |
| CStyle.Width | main.cpp:20-41 | How far one turn moves `i`: 2 when a `%` has a character after it (the `++i` in the pair branch plus the loop's `++i`), otherwise 1. LoopStep and Turn tie it to the scan's next piece. |
| CStyle.Fits | main.cpp:28-36 | The arguments supply every placeholder, in order, with a value of the kind its `va_arg` reads. It is the precondition of CStylePrintf, and FitsCons and Advance show that it carries over to the placeholders that remain. |
| CStyle.MarkerKind | main.cpp:24-37 | A character selects an argument kind exactly when it is `d`, `s` or `f`. |
| CStyle.ScanSources | main.cpp:20-46 | The scan covers every character of the format string exactly once and in order: joining the pieces' source characters gives back the format string. |
| CStyle.SourcesAppend | main.cpp:20-46 | The characters two joined piece sequences stand for are those of the first followed by those of the second. |
| CStyle.SourcesAt | main.cpp:20-46 | Piece t stands for the characters between those of the pieces before it and those of the pieces after it. |
| CStyle.ScanSourceAt | main.cpp:20-46 | The format string is the characters of the scan's pieces before t, then piece t's characters, then those of the pieces after it: piece t covers the positions right after the earlier pieces. |
| CStyle.ScanWellFormed | main.cpp:20-41 | The scan never copies a `%` except in the last position, where nothing follows it, and a dropped second character is never `d`, `s` or `f`. |
| CStyle.SourcesScan | main.cpp:20-46 | Every well-formed piece sequence is the scan of its own source characters, so the scan and the sources are inverse to each other. |
| CStyle.ScanAppend | main.cpp:20-41 | When the scan of p does not end on a lone `%`, the scan of p + q is the scan of p followed by the scan of q: no pair spans the join. |
| CStyle.MarkerKindsAppend | main.cpp:24-37 | The placeholders of two joined piece sequences are those of the first followed by those of the second. |
| CStyle.EmitCons | main.cpp:24-46 | One piece writes its own text and then hands the arguments it did not read to the pieces after it. |
| CStyle.EmitAppend | main.cpp:20-47 | Two joined piece sequences write the first's output and then the second's, with the second reading the arguments the first left. |
| CStyle.EmitIgnoresExtra | main.cpp:24-37 | Arguments beyond those the placeholders read do not change the output. |
| CStyle.EmitAt | main.cpp:20-47 | Piece t writes its own text at its place. A copied character writes itself, a dropped pair writes `%`, and a placeholder writes argument j, where j is the number of placeholders before it. |
| CStyle.PlaceholderSubstitution | main.cpp:24-37 | The placeholder at piece t reads exactly one argument, the one after those the earlier placeholders read, and its text appears between the outputs of the pieces before and after it. |
| CStyle.UnknownPair | main.cpp:38-41 | `%` followed by a character other than `d`, `s` or `f` writes `%`, drops that character and reads no argument. |
| CStyle.EscapedMarker | main.cpp:38-41 | `%%d` writes `%d` and reads no argument. |
| CStyle.NoPercentVerbatim | main.cpp:43-46 | A format string without `%` is written unchanged and reads no argument. |
| CStyle.TrailingPercent | main.cpp:22-46 | A `%` in the last position that the scan reaches alone is copied and reads no argument. The scan reaches it alone because the earlier part does not end on a lone `%`, so the `%` is not the second character of a `%x` pair. |
| CStyle.PairedFinalPercent | main.cpp:22-41 | A final `%` that is the second character of a pair is not copied. `%%` added at the end, after a part that does not end on a lone `%`, writes a single `%` and reads no argument, so `a%%` writes `a%`. |
| CStyle.EmitConcat | main.cpp:20-47 | For two format strings where the first does not end in `%`, the output of the joined string is the first's output followed by the second's, and the second reads the arguments the first left. |
| CStyle.LonePlaceholder | main.cpp:24-37 | `%d`, `%s` or `%f` on its own writes the first argument and asks for the kind its marker names. |
| CStyle.KindsOfMarkers | main.cpp:24-37 | There is one argument kind per marker character. |
| Arguments.RenderEach | main.cpp:28-36 | There is one text per argument. |
| CStyle.Substitution | main.cpp:11-48 | For a format string of literal runs without `%` separated by N placeholders, with N arguments, the output is the runs with the arguments' texts between them in order. The placeholders ask for the kinds their markers name. |
| CppStyle.CppPrintf | main.cpp:57-84 | Both overloads together return exactly `CppText(fmt, args)`. |
| CppStyle.CppText | main.cpp:57-84 | What `cpp_printf` writes. A template without `%` comes out unchanged. With a `%`, the output is as long as the template plus the texts of all arguments. The full closed form is proved by CollapseAtFirstPercent. |
| CppStyle.FirstPercent | main.cpp:74-75 | Finds the first `%` if there is one: the position holds `%` and no `%` comes before it. It returns nothing exactly when the template has no `%`. |
| CppStyle.FirstPercentAt | main.cpp:74-75 | Any position holding `%` with no `%` before it is the one the iterator loop stops at. |
| CppStyle.NoArguments | main.cpp:57-60 | With no arguments the template is written exactly. |
| CppStyle.NoPlaceholder | main.cpp:74-83 | A template without `%` is written unchanged, and all arguments are ignored. |
| CppStyle.CppTextStep | main.cpp:74-79 | With the first `%` at k, the output is the template before k, then the first argument, then the recursion on the template from k on. |
| CppStyle.AtPercent | main.cpp:75-79 | From a template that starts with `%`, all arguments are written back to back, followed by the whole template. |
| CppStyle.CollapseAtFirstPercent | main.cpp:71-84 | With the first `%` at k, the output is the template before k, then all arguments' texts in order, then the template from k on, that `%` included. |
| CppStyle.TwoArgumentsOnePlace | main.cpp:66-78 | `"a%b%c"` with arguments x and y writes `a`, x, y, `%b%c`: both arguments land at the first `%` and both `%` stay, not the per-`%` replacement the comment describes. |
| Arguments.RenderAllAppend | main.cpp:76-78 | Writing two argument lists back to back writes the texts of their concatenation. |
| Arguments.RenderAllSingle | main.cpp:76 | One argument written alone gives its own text. |
| Arguments.Render | main.cpp:28-36 | The text `std::cout <<` writes for one argument. A string is written as it is and holds no NUL, a `double` is written by the renderer, and an `int` is a non-empty text that starts with `-` exactly when the value is negative. |
| Arguments.RenderIntReadBack | main.cpp:28 | An `int` argument's text is a sign and digits, and it reads back to the argument's value. |
| Decimal.Digits | main.cpp:28 | The decimal digits of a natural number: at least one digit, only digits, and no leading zero except for zero itself. |
| Decimal.Text | main.cpp:28 | The text of an `int`: non-empty, and it starts with `-` exactly when the value is negative. |
| Decimal.TextShape | main.cpp:28 | After the optional `-`, an integer's text is all digits, and there is at least one digit. |
| Decimal.ParseDigitsOfDigits | main.cpp:28 | Reading the digits of n back gives n. |
| Decimal.ParseMinusDigits | main.cpp:28 | Reading `-` followed by the digits of m back gives -m. |
| Decimal.ParseText | main.cpp:28 | Reading an integer's text back gives the integer. |
| Decimal.TextInjective | main.cpp:28 | Distinct integers have distinct texts. |

## Left out

- Writing to `std::cout`: the model returns the text that would be written. Both functions only append to the stream, so each returns its output as a string.
- Rendering a `double` (`std::cout << double`, main.cpp:36 and 76): floating-point formatting is not modelled. Both functions take it as the parameter `fmtDbl` from a 64-bit IEEE-754 bit pattern to text, and the proofs hold for every such renderer.
- `va_list`, `va_start` and `va_arg` (main.cpp:14-17): the arguments are a sequence of tagged values. Reading an argument of the wrong type, or past the end, is undefined behaviour in C++, so `CStyle.CStylePrintf` requires that the arguments fit the placeholders (`Fits`). The source also never calls `va_end`; this is not modelled.
- Template instantiation in `cpp_printf`: the compile-time recursion over the parameter pack is modelled as recursion on the argument sequence. `std::cout << head` for an arbitrary `Head` is limited to the three argument kinds of the model: `int`, character string and `double`.
- `main` (main.cpp:86-90) and its two demonstration calls are not modelled.
- Null `const char *` arguments: not modelled. A string argument has the type `CString`, the characters before the terminating NUL, so it never contains NUL itself.
- Stream state of `std::cout`: the texts for `int` and `const char *` assume its default state, namely decimal base, no `showpos`, width 0, and the classic locale without digit grouping. The functions never change that state, so no behaviour of theirs is dropped.
- Characters are Dafny `char` values, not bytes. No encoding is modelled.
- `int i` against `fmt.length()` in `cstyle_printf` (main.cpp:20): the index is unbounded. This matters only for format strings longer than `INT_MAX` characters.
