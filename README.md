# FindPattern signature scanner, modelled in Dafny

This project models the header-only FindPattern library. The library finds a byte signature in
the loaded image of a Windows module. A `Module` handle is bound to one module's image, given by
its base address and declared image size. It offers two searches:

- `FindPattern` over a vector of 16-bit tokens. Each token is an exact byte value, or the
  wildcard sentinel `256`, which matches any byte. The scanner tries every start position from the
  first byte up to `size - |pattern|` in ascending order. It returns the first position where
  every token matches the byte under it. If no position matches, it returns "not found".
- `FindPattern` over IDA-style signature text such as `"FC E8 ?? ?? ?? ?? 8B 3D"`. The text is
  first turned into a token vector by `ConvertIDAPatternToByteVector`.

Files:

- `wrappers.dfy`: `Option`.
- `signature.dfy` (module `Signature`): tokens, the match predicate `MatchesAt`, the reference
  search `FirstMatchFrom`/`FirstMatch`, and lemmas about them.
- `ida_pattern.dfy` (module `IdaPattern`): the meaning of signature text. This covers `strtol`
  restricted to hex digits, the recursive `Parse`, the well-formed element grammar with `Render`,
  and the inverse `Format`.
- `find_pattern.dfy` (module `FindPattern`): the `Module` class. Its fields are fixed by the
  constructor. It has the imperative scanner, the per-start comparison, the text search and the
  cursor-driven parser, each proved against the functions above.

Modelling choices:

- The module's mapped memory is an `array<bv8>` starting at `base`. `size` is the declared image
  size, and `Valid()` requires `size <= image.Length`. The scanner only reads offsets in
  `[0, size)`: `MatchesAtData`, `FindPattern` and `FindIdaPattern` report the offsets they read
  in a ghost set, and their contracts bound that set.
- A match is returned as `Some(offset)` from `base` instead of a pointer cast to `T`. The
  address the source returns is `base + offset`, and "not found" (`nullptr`) is `None`.
- An empty pattern is found at offset 0, even in an empty image. The source does the same: its
  loop runs once and the comparison lambda returns `true`.
- `strtol(…, 16)` is modelled for text made only of hex digits, spaces and `?`. On that
  alphabet there is no sign, no `0x` prefix and no leading whitespace to skip. The value is the
  positional base-16 value (`HexValue`, proved equal in `Strtol16Value`)
  of the maximal hex run, clamped to `LONG_MAX` (32-bit `long`, as on Windows), then truncated to
  `uint16_t` (modulo 65536) when pushed into the buffer.

The header comment on the parser (FindPattern/FindPattern.h:73-75) says spaces "can be omitted".
The model follows the code, and in the code they cannot:

- A number element is read as the maximal hex run, but the cursor always moves exactly two
  characters on. It does not move past the digits it consumed. So `"FCE8"` parses to
  `[0xFCE8, 0xE8]` (`RunWithoutSpaces`), and `"100 "` parses to `[256, 0]`, a wildcard and a zero
  byte (`RunOfWildcardValue`).
- Around wildcards, `"? ?"` is two wildcards but `"??"` is one (`WildcardSpacing`).
- After a one-digit number, `"F ?"` is `[0x0F, 256]` but `"F?"` is `[0x0F]`: the two-character
  step jumps over the `?` (`NumberSpacing`).

## Model

| member | source | states |
|---|---|---|
| `Signature.FirstMatchFrom` | FindPattern/FindPattern.h:52-62 | The result is a start position at or after `from` where the pattern lies inside the image and every token matches. No earlier position from `from` on matches. `None` means no position from `from` on matches. |
| `Signature.FirstMatchIsLeftmost` | FindPattern/FindPattern.h:52-61 | A match at `k` with no match before it is exactly what the search returns. So of two overlapping matches the left one wins, and a pattern found only at `k` is reported at `k`. |
| `Signature.NotFoundIffNoMatch` | FindPattern/FindPattern.h:52-62 | The search returns not-found exactly when no start in `0 .. size - n` (n the pattern length) matches. |
| `Signature.TooLongNotFound` | FindPattern/FindPattern.h:52 | A pattern longer than the image is never found. |
| `Signature.EmptyPatternAtZero` | FindPattern/FindPattern.h:52-61 | The empty pattern is found at offset 0, even in an empty image. |
| `Signature.WildcardIgnoresByte` | FindPattern/FindPattern.h:57-58 | Rewriting the byte under a `256` token does not change whether the pattern matches at that start. |
| `Signature.GeneralizedFoundNoLater` | FindPattern/FindPattern.h:55-61 | Replacing tokens by the wildcard never loses a match. The first match of the more general pattern is at or before the original one. |
| `IdaPattern.HexRun` | FindPattern/FindPattern.h:93 | `strtol`'s digit loop over the maximal hex run: the result is at least the accumulator, and, when a hex digit heads the text, at least 16 times the accumulator plus that digit. |
| `IdaPattern.RunLength` | FindPattern/FindPattern.h:93 | The digits `strtol` reads: a prefix of the text made only of hex digits, followed by the end of the text or a non-digit, so it is the maximal such prefix. |
| `IdaPattern.HexValue` | FindPattern/FindPattern.h:93 | The positional base-16 value of `n` hex digits is below `16^n`. |
| `IdaPattern.HexRunValue` | FindPattern/FindPattern.h:93 | `strtol`'s digit-by-digit accumulation equals the positional value: reading the digits `ds` up to a non-digit onto `acc` gives `acc * 16^len(ds) + HexValue(ds)`. |
| `IdaPattern.Strtol16` | FindPattern/FindPattern.h:93 | `strtol` never returns more than `LONG_MAX` (32-bit `long`). |
| `IdaPattern.Strtol16Value` | FindPattern/FindPattern.h:93 | `strtol` returns the positional base-16 value of the maximal hex run heading the text, or `LONG_MAX` when that value exceeds it. |
| `IdaPattern.ToUint16` | FindPattern/FindPattern.h:92-93 | The narrowing to `uint16_t` keeps values below 65536 unchanged, and otherwise differs from its input by a multiple of 65536. |
| `IdaPattern.StrtolSaturates` | FindPattern/FindPattern.h:92-93 | `strtol` on `FFFFFFFFF` saturates at `LONG_MAX`, which narrows to the token `0xFFFF`. |
| `IdaPattern.StrtolTwoDigits` | FindPattern/FindPattern.h:93 | Two hex digits followed by a non-digit read as `16 * hi + lo`. |
| `IdaPattern.StrtolOneDigit` | FindPattern/FindPattern.h:93 | One hex digit followed by a non-digit reads as its value (leading zero optional). |
| `IdaPattern.ParseAt` | FindPattern/FindPattern.h:80-96 | One cursor step at position `i`: a space emits nothing and moves one on; `?` emits `256` and moves one on, or two on over `??`; any other character emits the narrowed `strtol` value and moves two on, stopping at the end. |
| `IdaPattern.Parse` | FindPattern/FindPattern.h:80-96 | The parser emits at most one token per character of text. |
| `IdaPattern.ParseSpace` | FindPattern/FindPattern.h:82 | A space emits nothing. |
| `IdaPattern.ParseSingleWildcard` | FindPattern/FindPattern.h:84-88 | A `?` not followed by `?` emits exactly one `256` and consumes one character. |
| `IdaPattern.ParseDoubleWildcard` | FindPattern/FindPattern.h:84-88 | `??` emits exactly one `256` and consumes both characters. |
| `IdaPattern.ElementToken` | FindPattern/FindPattern.h:84-94 | A grammar element stands for a token of at most `256`. It is `256` exactly for the wildcard spellings `?` and `??`. |
| `IdaPattern.ParseElement` | FindPattern/FindPattern.h:80-96 | A spelled element followed by a space or the end of the text emits one token, its byte value or `256`, then parsing continues after the element. |
| `IdaPattern.ParseRender` | FindPattern/FindPattern.h:80-96 | Text of well-formed elements separated by single spaces parses to one token per element, in element order. Each hex element gives its base-16 value in `0..255`, and each wildcard element gives `256`. |
| `IdaPattern.FormatParse` | FindPattern/FindPattern.h:76-99 | Any pattern of bytes and wildcards, written as text, parses back to itself. |
| `IdaPattern.HeaderExampleSingle` | FindPattern/FindPattern.h:75 | `"FC E8 ? ? ? ? 8B 3D"` parses to `[0xFC, 0xE8, 256, 256, 256, 256, 0x8B, 0x3D]`. |
| `IdaPattern.HeaderExampleDouble` | FindPattern/FindPattern.h:75 | `"FC E8 ?? ?? ?? ?? 8B 3D"` parses to the same eight tokens. |
| `IdaPattern.SingleDigit` | FindPattern/FindPattern.h:93-94 | `"A"` parses to the single byte `0x0A`. |
| `IdaPattern.RunWithoutSpaces` | FindPattern/FindPattern.h:74 | `"FCE8"` parses to `[0xFCE8, 0xE8]`. `strtol` reads the whole run, and the cursor moves on only two characters. |
| `IdaPattern.RunOfWildcardValue` | FindPattern/FindPattern.h:92-94 | `"100 "` parses to `[256, 0]`: a run whose value is `0x100` becomes the wildcard token. |
| `IdaPattern.WildcardSpacing` | FindPattern/FindPattern.h:82-88 | `"? ?"` parses to two wildcards, `"??"` to one. |
| `IdaPattern.NumberSpacing` | FindPattern/FindPattern.h:90-95 | `"F ?"` parses to `[0x0F, 256]`, `"F?"` to `[0x0F]`. |
| `FindPattern.Module.constructor` | FindPattern/FindPattern.h:39-44 | The handle stores name, base, image and declared size once, and they never change afterwards. |
| `FindPattern.Module.MatchesAtData` | FindPattern/FindPattern.h:53-60 | The comparison lambda returns `true` exactly when every token equals its byte or is `256`. It reads only bytes of the window `[data, data + n)`. |
| `FindPattern.Module.FindPattern` | FindPattern/FindPattern.h:49-63 | A returned offset `k` has `k + n <= size`, matches, and is the leftmost match. Not-found means no start in `0 .. size - n` (n the pattern length) matches. Every byte read lies in `[0, size)`. When `n > size`, the result is not-found and no byte is read. The result equals `FirstMatch`. |
| `FindPattern.Module.FindIdaPattern` | FindPattern/FindPattern.h:65-69 | The search by text gives the same result as the search by vector applied to the parse of the text. Every byte read lies in `[0, size)`. |
| `FindPattern.Module.ConvertIdaPatternToByteVector` | FindPattern/FindPattern.h:76-99 | The cursor loop that appends to the buffer produces exactly `Parse(text)`. |
| `FindPattern.ScenarioTokensAtStart` | FindPattern/FindPattern.h:52-61 | The header example's tokens are found at offset 0 of `FC E8 11 22 33 44 8B 3D 00`. |
| `FindPattern.ScenarioFoundAtStart` | FindPattern/FindPattern.h:66-68 | `"FC E8 ?? ?? ?? ?? 8B 3D"` is found at offset 0 of `FC E8 11 22 33 44 8B 3D 00`. |

## Left out

- `GetModuleBaseAddress` (FindPattern/FindPattern.h:10-18) is left out. It calls the Win32 loader through `GetModuleHandle`, and throws when the module is not loaded. The constructor instead takes the resolved base and image, so the "module not found" exception is not modelled.
- `GetModuleSize` (FindPattern/FindPattern.h:22-27) is left out. It reads the PE/COFF headers (`e_lfanew`, the NT signature, `SizeOfImage`) through raw casts, and returns 0 for an unrecognised signature. The declared size is a constructor input instead. Any size up to the mapped length is allowed, 0 included.
- `GetBytesAtAddress` (FindPattern/FindPattern.h:29-33) and the `reinterpret_cast<T>` of the result are left out. Both are unchecked pointer reinterpretation. The model returns an offset instead.
- The module name is stored, as in the source, but nothing reads it.
- FindPattern.Module.ConvertIdaPatternToByteVector: requires the text to contain only hex digits, spaces and `?`. Outside that alphabet, `strtol` would skip other whitespace, accept a sign or a `0x` prefix, or read nothing and return 0. None of that is modelled.
- FindPattern.Module.ConvertIdaPatternToByteVector: for a `?` that ends the text, the source dereferences one character past the end (line 86). The model's look-ahead stops at the end instead, with the same result as reading the string's terminating NUL.
- FindPattern.Module.ConvertIdaPatternToByteVector: when a number starts at the last character, the source's cursor steps past the end (line 94 plus the loop increment), which is undefined behaviour. The model's cursor stops at the end instead, so `"A"` parses to `[0x0A]`.
- FindPattern.Module.FindPattern: when `|P| > size`, the source computes a pointer before the image base (line 52). The model takes the intended reading: the loop does not run and the result is not-found.
- The module's memory changing or being unmapped by another thread during a scan is not modelled. The image array is only read.
