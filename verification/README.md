# static_format in Dafny

A model of `static_format.hpp`, a compile-time imitation of C++20
`std::format`. The model has three parts:

- `static_string<N>` (module `StaticStrings`). This is a fixed array of N
  characters with a separately stored logical length. The model covers the
  default constructor, the two constructors from a view, `size`, `set_size`,
  `to_string_view` and the overlapping join `operator+`.
- The integral `to_static_string` (module `IntegerConversion`). It collects
  digits least significant first with the truncating `%` and `/`, appends the
  sign, writes a terminator, sets the length, and reverses the prefix in
  place. The loop and the reversal are methods over sequences with loop
  invariants. They are specified against a separate description of decimal
  numerals (module `Decimal`), which has its own parser as a partner.
- `format_builder` and `static_format` (module `Format`). Each argument is one
  step of a left fold over the state (buf, fmt). A step finds the first '{'
  and the first '}' after it, appends the literal prefix and the argument's
  rendering, and drops the text up to and including the '}'. When either
  search fails, the step leaves the state alone. After the fold, the rest of
  the template is appended. The engine is related to a reference
  decomposition of a format string into holes and a tail (module
  `Templates`), whose `Parse` and `Assemble` are proved to be inverse.

Arguments are a tagged datatype `Arg`:
- `Int(n)` is rendered as the numeral of n.
- `Text(s)` is copied verbatim.
- `Float(x)` is rendered by a function passed in as a parameter (`floatText`).

Three behaviours of the code are kept exactly as written:
- A default-constructed `static_string<N>` has length N over an all-NUL
  array, not length 0 (static_format.hpp:39 and :71).
- The constructor from a view copies the whole view, whatever size is
  recorded, so the view must fit in the array (static_format.hpp:41-43).
- `operator+` copies only `size() - 1` characters of the left operand, so
  its last counted character is overwritten by the right operand. It never
  sets the result's length, which therefore stays N + M
  (static_format.hpp:50-56).

## Model

| member | source | states |
|---|---|---|
| StaticStrings.Default | static_format.hpp:39 | a default instance has capacity N, length N (not 0), and every character NUL |
| StaticStrings.DefaultView | static_format.hpp:39 | the view of a default instance is N NUL characters, not the empty string |
| StaticStrings.FromView | static_format.hpp:41-43 | the constructor with a size copies the whole view to the front and records the given size whatever the view's length; the view must fit in N |
| StaticStrings.FromViewFull | static_format.hpp:40 | the constructor from a view alone records length N |
| StaticStrings.SetSize | static_format.hpp:61-62 | set_size changes the length and nothing else; size() then reads it back |
| StaticStrings.ToView | static_format.hpp:64-66 | to_string_view is exactly the first size() characters of the array |
| StaticStrings.ViewRoundTrip | static_format.hpp:41-43 | building from a view with its own length and viewing it gives the view back |
| StaticStrings.SetSizeView | static_format.hpp:61-66 | after set_size(k) the view is the first k characters, so a shorter size gives a prefix of the view of a longer one |
| StaticStrings.Concat | static_format.hpp:50-56 | the join has capacity N+M and length N+M; characters [0, lhs.size()-1) come from lhs, the next rhs.size() from rhs, the rest stay NUL; needs lhs.size() >= 1 |
| StaticStrings.ConcatView | static_format.hpp:50-56 | the view of a join is lhs's view without its last character, then rhs's view, then NUL padding up to N+M |
| StaticStrings.ConcatOverlapExample | static_format.hpp:53-54 | joining "ab" with "c" gives "ac" and a NUL: the last character of lhs is overwritten |
| Decimal.Digits | static_format.hpp:92-95 | the digits of a magnitude are canonical (no leading zero) and start with '0' exactly for zero |
| Decimal.NumeralRoundTrip | static_format.hpp:86-105 | the numeral of n is a standard numeral, starts with '-' exactly when n < 0, is as long as the digits plus the sign, and parses back to n |
| Decimal.NumeralOfParse | static_format.hpp:86-105 | every standard numeral is the numeral of the integer it denotes |
| Decimal.LowFirstReversed | static_format.hpp:92-103 | reversing the digits in the order the loop emits them gives the most-significant-first digits |
| Decimal.DigitsBound | static_format.hpp:88 | a magnitude below 10^k has at most k digits |
| IntegerConversion.CollectDigits | static_format.hpp:89-95 | the do-while loop with abs(cn % 10) and cn /= 10 writes the digits of abs(n) least significant first, at least one digit, and touches nothing past them |
| IntegerConversion.ReversePrefix | static_format.hpp:103 | std::reverse over the first k characters reverses them and leaves the rest alone |
| IntegerConversion.WriteDecimal | static_format.hpp:88-104 | on a NUL buffer whose capacity exceeds the numeral's length, the result's length is the digit count plus one for a negative value, its view is the numeral of n, and the rest stays NUL |
| IntegerConversion.ToStaticString | static_format.hpp:86-105 | to_static_string as written: capacity digits10 + 1, view equal to the numeral of n, size the digit count plus the sign; needs the numeral to be shorter than the capacity so the terminator fits |
| IntegerConversion.TerminatorOutOfBounds | static_format.hpp:88-100 | 1000000000 and -100000000 are ints whose numeral fills all 10 places, so the terminator lands at index 10 of a 10-character array; the minimum int needs 11 |
| IntegerConversion.SizedCapacitySuffices | static_format.hpp:88 | with digits10 + 3 places every value of the type leaves room for the terminator |
| IntegerConversion.SignedTypesValid | static_format.hpp:88 | the ranges given for signed char, short, int and long long have at most digits10 + 1 digits |
| IntegerConversion.ToStaticStringSized | static_format.hpp:86-105 | to_static_string with capacity digits10 + 3 converts every value of the type to its numeral |
| Templates.Find | static_format.hpp:155 | a found index is at or after the start and holds the searched character |
| Templates.FindSpec | static_format.hpp:155-158 | find returns the first such index, and finds nothing only when no such index exists |
| Templates.FindsPlaceholder | static_format.hpp:155-159 | both searches succeed exactly when some '{' is followed later by a '}' |
| Templates.OpenFound | static_format.hpp:155 | on a string split as literal, '{', text without '}', '}', rest, with no '{' in the literal, the search for '{' finds the brace right after the literal |
| Templates.CloseFound | static_format.hpp:158 | on such a split, the search for '}' from the position after the '{' finds the brace right after the inner text |
| Templates.FirstSplit | static_format.hpp:155-170 | the two searches fail exactly when there is no placeholder; otherwise they split the string at the first '{' and the first '}' after it |
| Templates.SplitIsFirst | static_format.hpp:155-170 | every such split of a string is the one the searches find |
| Templates.Parse | static_format.hpp:150-170 | the decomposition of every string is well formed and assembles back to the string |
| Templates.ParseAssemble | static_format.hpp:150-170 | every well-formed decomposition is recovered from the string it describes |
| Format.Step | static_format.hpp:150-171 | without a placeholder the step leaves buf and fmt unchanged; on a split it appends the literal and the rendering and continues after the '}', discarding the text between the braces |
| Format.StaticFormat | static_format.hpp:175-184 | the result has capacity 1000, and its size and view are the formatted text, which must fit in 1000 characters |
| Format.StuckFold | static_format.hpp:155-159 | once the template has no placeholder, every later step drops its argument |
| Format.FoldAppend | static_format.hpp:181 | folding over a + b is folding over a, then over b |
| Format.SurplusArgumentsDropped | static_format.hpp:155-159 | if the first k arguments leave no placeholder, the output equals the output for those k arguments |
| Format.FoldFollowsTemplate | static_format.hpp:175-182 | with j = min(#args, #holes), the fold fills the first j holes in order with the first j renderings and leaves the rest of the template |
| Format.FormatFollowsTemplate | static_format.hpp:175-184 | the formatted text is the first j holes filled in order, then the unconsumed template |
| Format.FormatExactArity | static_format.hpp:175-184 | as many arguments as holes: each hole is replaced left to right and the tail follows |
| Format.FormatSurplusArguments | static_format.hpp:181 | surplus arguments appear nowhere: the output equals the one for exactly as many arguments as holes |
| Format.FormatSurplusHoles | static_format.hpp:182 | holes beyond the arguments appear literally, braces and inner text included |
| Format.FormatLiteral | static_format.hpp:182 | with no arguments, or no placeholder, the template comes back unchanged |
| Format.HelloExample | static_format.hpp:13 | the usage example: "{}, format!" with "Hello" gives "Hello, format!" |
| Format.NoPlaceholderExample | static_format.hpp:155-156 | a template without braces ignores its integer arguments |

## Left out

- test.cpp is a benchmark program (clocks, string streams, console output) with no behaviour to model.
- The floating-point `to_static_string` (static_format.hpp:107-132) works by float truncation and epsilon comparisons; `Float` arguments are rendered by the parameter `floatText` instead.
- `new_static_string` and the one-argument `static_strcat` (static_format.hpp:79-84, 134-141) are used only by the variadic `static_strcat`, which is marked deprecated (static_format.hpp:143-147); `static_format` does not use any of them.
- `operator<<`, `c_str`, the implicit conversion to a view, `operator[]`, `begin` and `cbegin` (static_format.hpp:46-47, 58-59, 67, 74-77) are stream output and raw accessors; the models of the operations that use them write through sequence updates.
- The `consteval`/`constexpr` distinction: everything is a pure function or a method without side effects, and an out-of-bounds write, which would stop compilation, is excluded by a precondition.
- `char` and `bool` are arithmetic in C++ and would go through the integer converter; only the signed integer types (signed char, short, int, long long) are given as `Integral` values. Unsigned types are left out because the unqualified `abs` of an unsigned remainder (static_format.hpp:93) resolves differently, or not at all, depending on which global `abs` overloads the standard library declares.
- StaticStrings.FromView: the source leaves the characters after the copied view indeterminate; the model fills them with NUL and its contract says nothing about them.
- Format.Render: an `Int` argument is rendered as the numeral of its value, which is the view of IntegerConversion.ToStaticStringSized; the source's own converter rejects the 10-digit and 9-digit-negative ints (see Findings). The integral type of the argument is not tracked.
- Format.Render: a Dafny `char` stands for one C++ `char`, that is one byte, so non-ASCII text is given as its UTF-8 bytes, one `char` per byte; lengths, `size()` and the 1000-character bound of Format.StaticFormat then count bytes as the source does.
- Format.Render: `Text(s)` and the template are taken as `string_view`-like inputs of known length and copied verbatim; a C-string argument or template literal is converted through `const char*` in the source and so is cut at its first NUL, which the caller must do before building the `Text` value or the template.
- Size arithmetic is not wrapped: `operator+` on an operand of size 0 computes `size() - 1` as a huge unsigned count in the source; StaticStrings.Concat requires size() >= 1 instead.

## Findings

| source | as written | input that shows it | evidently intended | confidence | as-written member | corrected member |
|---|---|---|---|---|---|---|
| static_format.hpp:88-100 | the buffer holds `digits10 + 1` characters, and the terminator is written at `ret[pos]` after all digits and the sign | `int` 1000000000 or -100000000: the numeral fills all 10 places and the terminator is written at index 10; `int` -2147483648 already overflows with its sign | room for every digit of the type (`digits10 + 1`), the sign and the terminator: `digits10 + 3` | not executed | IntegerConversion.TerminatorOutOfBounds | IntegerConversion.ToStaticStringSized |
