# SAYAC assembler: a verified model of the instruction encoder

SAYAC is a 16-bit instruction set. Its Python assembler (`SAYAC_Assembler.py`)
reads a text file of assembly lines and writes a `.bin` file with one bit
string per instruction. This project models the core of that assembler in Dafny:

- **`intToBin`** writes the decimal operand text in binary. It keeps the last
  `n` characters of `bin()` with `0b` removed. Nothing is zero-padded, and a
  negative value keeps its `-`.
- **`hexToInt`** reads the flag-select operand of `brc`/`brr`. It uses base 0
  when the text contains `0x` and base 16 otherwise.
- **`INS_REQUIRED_ARGS_COUNT`** is the table of mnemonics and their operand
  counts.
- **`parseInstruction`** works on one line. It strips the line and splits it
  on single spaces. It looks up the lower-cased mnemonic and checks the operand
  count. It removes every `_` and `r` from register tokens. Finally, it appends
  one `_`-separated bit string to the global list `binFileLines`.
- **The assembling loop** runs `parseInstruction` on each line in order and
  stops at the first error. On success, the list is written out after a
  leading newline, one string per line.

Modules, one per concern:

| file | module | what it holds |
|---|---|---|
| `results.dfy` | `Results` | `Option` and `Result`, standing in for the exceptions |
| `text.dfy` | `Text` | `strip`, `split(" ")`, `lower`, `replace(p, "")` and `join`, with their laws |
| `numerals.dfy` | `Numerals` | Python's `int()` (bases 10, 16, 0), `str`, `bin`, and the assembler's `hexToInt` and `intToBin` |
| `isa.dfy` | `Isa` | the 31 mnemonics, the operand-count table, its key lookup, and the field layout each branch writes |
| `encoder.dfy` | `Encoder` | one line to its bit string or error (`ParseLine`, `Encode`), plus the properties of the encoding |
| `driver.dfy` | `Driver` | the class `Assembler`, whose field `binFileLines` grows one append at a time, the loop over the lines, and the `.bin` text |

The thirty-one branches of the `if`/`elif` chain in `parseInstruction` share
eight shapes. For example, every three-register form writes `oooo_rs1_rs2_rd`.
The table `Isa.LayoutOf` gives each mnemonic its shape and literals, and
`Isa.Fields` lists the fields in writing order. Each field is a fixed literal
or an operand slot of width 4, 5, 6 or 8. `Encoder.RenderFields` evaluates the
slots from left to right, as the f-string does, so the first operand that is
not a number decides the error.

Facts about the assembler that a reader might not expect:

- Operand fields are not padded. `intToBin` writes the minimal binary numeral
  and keeps only its last `n` characters. For example, `3` in a 4-bit field is
  `11`, so a line can hold fewer than 16 digits (`Encoder.EncodeWidth`).
- A negative value keeps its `-` sign when it fits in the field. For example,
  `-1` in an 8-bit field is `-1`. The field is never a two's-complement pattern.
- The operand-count table has 31 keys. `add`/`adr` and `sub`/`sur` are
  distinct keys that encode alike. Apart from those pairs, a bit string
  determines its mnemonic (`Encoder.EncodingDeterminesMnemonic`).
- The assembler only encodes. It has no decoder and no simulator.

## Model

| member | source | states |
|---|---|---|
| `Numerals.PyBin` | SAYAC_Assembler.py:98 | Python's `bin(v)`: `0b`, or `-0b` for a negative value, followed by `NatToBin` of the magnitude; `BinText` gives its meaning once `0b` is removed |
| `Numerals.Last` | SAYAC_Assembler.py:98 | Python's `s[-n:]`, including `s[-0:]` as the whole string; `LastDropsPrefix` and `BinFieldZeroWidth` state its behaviour |
| `Numerals.IntToBin` | SAYAC_Assembler.py:97-98 | `intToBin(num, n)` as written: `int`, `bin`, removal of `0b`, then the last `n` characters; `IntToBinReads` and `BinFieldOfNonNegative` give its meaning |
| `Numerals.ParseDecimal` | SAYAC_Assembler.py:98 | `int(s)`: an optional sign and decimal digits; `DecimalRoundTrip` shows that it reads back what `str()` writes |
| `Numerals.ParseBase16` | SAYAC_Assembler.py:94 | `int(s, 16)`: an optional sign, an optional `0x`/`0X`, then hexadecimal digits; `HexToIntPlainExamples` gives instances |
| `Numerals.ParseBase0` | SAYAC_Assembler.py:93 | `int(s, 0)`: the base follows from the prefix, and a decimal literal has no leading zeros; `Base0AgreesWithBase16` relates it to base 16 |
| `Numerals.HexToInt` | SAYAC_Assembler.py:91-94 | `hexToInt` as written, with both branches; `HexToIntIsBase16` gives its meaning |
| `Numerals.NatToBin` | SAYAC_Assembler.py:98 | the digits `bin()` writes for a natural number are binary, minimal (`0` or a leading `1`), `BitLength(v)` long and read back as `v` |
| `Numerals.BinText` | SAYAC_Assembler.py:98 | `bin(v).replace("0b", "")` is the sign of a negative `v` followed by the binary digits of its magnitude |
| `Numerals.IntToBinReads` | SAYAC_Assembler.py:97-98 | `intToBin(num, n)` succeeds exactly when `int(num)` does; it then gives the field text of that value, and otherwise the `ValueError` for `num` |
| `Numerals.BinFieldOfNonNegative` | SAYAC_Assembler.py:98 | for `v >= 0` the field holds only `0`/`1`, is `min(n, bit length)` long (0 counts as one digit) and reads as `v mod 2^n` |
| `Numerals.BinFieldTruncates` | SAYAC_Assembler.py:98 | 300 in an 8-bit field is `00101100` |
| `Numerals.BinFieldNoPadding` | SAYAC_Assembler.py:98 | a value `0 <= v < 2^n` is written as its minimal numeral, with no leading zeros |
| `Numerals.BinFieldExampleNoPadding` | SAYAC_Assembler.py:98 | 3 in a 4-bit field is `11` |
| `Numerals.BinFieldOfNegative` | SAYAC_Assembler.py:98 | a negative value keeps `-` and its magnitude's digits when they fit; otherwise the sign is cut and the field equals that of the magnitude, never a two's-complement pattern |
| `Numerals.BinFieldExampleNegative` | SAYAC_Assembler.py:98 | -1 in an 8-bit field is `-1` |
| `Numerals.BinFieldWidth` | SAYAC_Assembler.py:98 | a field of width `n >= 1` holds between 1 and `n` characters |
| `Numerals.BinFieldZeroWidth` | SAYAC_Assembler.py:98 | with `n = 0`, Python's `[-0:]` keeps the whole text |
| `Numerals.BinFieldIsBits` | SAYAC_Assembler.py:98 | the field is pure binary exactly when the value is non-negative or its sign has been cut off |
| `Numerals.BinFieldChars` | SAYAC_Assembler.py:98 | field text uses only `0`, `1` and `-` |
| `Numerals.SuffixValue` | SAYAC_Assembler.py:98 | the last `k` binary digits of a numeral read as its value mod `2^k` |
| `Numerals.BitLengthBound` | SAYAC_Assembler.py:98 | `v < 2^n` exactly when `v` has at most `n` binary digits |
| `Numerals.NatToDecimal` | SAYAC_Assembler.py:215 | `str()` of a natural is a non-empty decimal numeral that reads back as the number |
| `Numerals.DecimalRoundTrip` | SAYAC_Assembler.py:215 | `int(str(v)) == v`, so the flag code survives the `str()` inside the `brc`/`brr` f-strings |
| `Numerals.Base0AgreesWithBase16` | SAYAC_Assembler.py:91-94 | on any text containing `x`, `int(s, 0)` and `int(s, 16)` accept the same texts and give the same value |
| `Numerals.HexToIntIsBase16` | SAYAC_Assembler.py:91-94 | whichever branch `hexToInt` takes, it succeeds exactly when `int(s, 16)` does, with the same value |
| `Numerals.HexToIntPlainExamples` | SAYAC_Assembler.py:94 | `hexToInt("10") == 16`, `hexToInt("5") == 5`, and `hexToInt("g")` raises |
| `Numerals.HexToIntPrefixedExamples` | SAYAC_Assembler.py:92-93 | `hexToInt("0x10") == 16` and `hexToInt("0x0") == 0` |
| `Text.Strip` | SAYAC_Assembler.py:102 | `strip()`; `StripTrims` and `StripUnchanged` give its meaning |
| `Text.Split` | SAYAC_Assembler.py:102 | `split(" ")` with a one-character separator; `SplitParts`, `JoinSplit` and `SplitJoin` give its meaning |
| `Text.Lower` | SAYAC_Assembler.py:105 | `lower()` keeps the length; `LowerChars` gives its meaning |
| `Text.DeleteAll` | SAYAC_Assembler.py:109 | `replace(pat, "")` never lengthens the text, and a one-character pattern leaves no occurrence; `DeleteAllAbsent` and `DeleteCharConcat` give the rest |
| `Text.StripTrims` | SAYAC_Assembler.py:102 | `strip()` keeps a slice with no whitespace at either end and drops only whitespace |
| `Text.LowerChars` | SAYAC_Assembler.py:105 | `lower()` maps each character on its own and keeps the length |
| `Text.CleanRegister` | SAYAC_Assembler.py:109 | a cleaned register token has no `_` and no `r`, and every character it keeps comes from the token |
| `Text.CleanRegisterConcat` | SAYAC_Assembler.py:109 | the register clean-up distributes over concatenation |
| `Text.CleanRegisterChar` | SAYAC_Assembler.py:109 | the clean-up drops a single `_` or `r` and keeps any other character |
| `Text.CleanRegisterFilters` | SAYAC_Assembler.py:109 | the clean-up equals `Kept`, the independent filter that keeps every character other than `_` and `r`, in order |
| `Text.DeleteAllAbsent` | SAYAC_Assembler.py:109 | `replace` removes nothing from a text that lacks a character of the pattern |
| `Text.SplitParts` | SAYAC_Assembler.py:102 | no part of `split(" ")` contains a space |
| `Text.JoinSplit` | SAYAC_Assembler.py:102 | joining the parts of a split gives the text back |
| `Text.SplitJoin` | SAYAC_Assembler.py:102 | splitting a join of separator-free parts gives the parts back |
| `Text.DeleteSeparatorOfJoin` | SAYAC_Assembler.py:111 | deleting `_` from a join of `_`-free parts concatenates them |
| `Isa.Name` | SAYAC_Assembler.py:6-36 | the text of each mnemonic constant; `NamesDistinct` and `NameShape` state its properties |
| `Isa.ArgCount` | SAYAC_Assembler.py:38-70 | the operand count of each key of `INS_REQUIRED_ARGS_COUNT`; `TableArity` ties it to the branches |
| `Isa.LayoutOf` | SAYAC_Assembler.py:108-241 | the shape and literals of each branch's f-string; `TableConsistent`, `LayoutsDistinct` and `SecondNames` state its properties |
| `Isa.Fields` | SAYAC_Assembler.py:111-241 | the fields of each shape in writing order, which read only the operands the shape takes; `LayoutWidth` and `LayoutOperands` give the rest |
| `Isa.Position` | SAYAC_Assembler.py:38-70 | every mnemonic has a key in the operand-count table |
| `Isa.Lookup` | SAYAC_Assembler.py:106 | a successful lookup returns a key with exactly that name |
| `Isa.LookupName` | SAYAC_Assembler.py:106 | each key of the table is found under its own name, so no key of the table raises `KeyError` |
| `Isa.NamesDistinct` | SAYAC_Assembler.py:6-36 | no two mnemonics share a name |
| `Isa.CandidateName` | SAYAC_Assembler.py:6-36 | each name, read letter by letter, identifies its mnemonic |
| `Isa.NameShape` | SAYAC_Assembler.py:6-36 | each mnemonic is a lower-case word of at least three characters |
| `Isa.TableArity` | SAYAC_Assembler.py:38-70 | the number of operands each branch reads equals the count in the table |
| `Isa.Format` | SAYAC_Assembler.py:108-241 | each branch reads only operands 1 to the table count |
| `Isa.TableConsistent` | SAYAC_Assembler.py:108-241 | every literal in the layout table has the width its shape fixes |
| `Isa.LayoutWidth` | SAYAC_Assembler.py:108-241 | literal widths plus declared field widths add up to 16 for every shape |
| `Isa.LayoutOperands` | SAYAC_Assembler.py:108-241 | the operand numbers each shape writes, in writing order (for example `rs1 rs2 rd`) |
| `Isa.OrderIsPermutation` | SAYAC_Assembler.py:108-241 | each shape writes every operand it takes exactly once |
| `Isa.FormatWellFormed` | SAYAC_Assembler.py:108-241 | for every mnemonic: 16 digits in total, a 4-digit group literal first, binary literals, operand fields 4, 5, 6 or 8 wide, and each operand the count check admits read once |
| `Isa.Groups` | SAYAC_Assembler.py:108-241 | group `0010` is exactly `ldr`..`jmi`, and group `1111` is exactly `cmr`..`ntd2c` |
| `Isa.LayoutsDistinct` | SAYAC_Assembler.py:108-241 | two mnemonics share a layout only if they are equal or are `add`/`adr` or `sub`/`sur` |
| `Isa.TagLeadsFields` | SAYAC_Assembler.py:111-241 | every layout starts with the literals of its tag: the group, then the selector and bit that follow it |
| `Isa.TagsDistinct` | SAYAC_Assembler.py:111-241 | one tag can be a prefix of another only between equal mnemonics or the second-name pairs; `ldr`..`jmi` are told apart by the 2-bit and 1-bit selectors |
| `Isa.SecondNames` | SAYAC_Assembler.py:166-185 | `adr` has the layout of `add`, and `sur` that of `sub` |
| `Encoder.ParseLine` | SAYAC_Assembler.py:101-243 | `parseInstruction` on one line, giving its bit string or its error; `ParseLineKnown`, `ParseLineUnknown`, `ParsedLine` and `ParseWritten` give its meaning |
| `Encoder.IntToBinDecimal` | SAYAC_Assembler.py:97-98 | `intToBin(t, n)` is the decimal value of `t` written in an `n`-wide field, or `int(t)`'s error |
| `Encoder.RenderOperand` | SAYAC_Assembler.py:109-241 | each operand slot writes its token's value in its field: a register after the clean-up, an immediate as it stands, a flag code through `hexToInt` and `str` |
| `Encoder.RenderFields` | SAYAC_Assembler.py:111-241 | the f-string succeeds exactly when every slot does and then gives every slot's text; otherwise it raises the error of the first slot that fails |
| `Encoder.Encode` | SAYAC_Assembler.py:108-243 | a branch fails only on an operand that is not a number |
| `Encoder.Words` | SAYAC_Assembler.py:102-104 | the split always has a first word, so the guard at line 103 never fires |
| `Encoder.EncodeFields` | SAYAC_Assembler.py:108-243 | an encoding succeeds exactly when every slot does; it then splits at `_` into the field texts, and otherwise fails with the first failing slot's error |
| `Encoder.EncodeOperands` | SAYAC_Assembler.py:108-243 | an encoding fails exactly when one of its operand tokens is not a number |
| `Encoder.EncodeWidth` | SAYAC_Assembler.py:108-243 | without its `_` separators an encoding has at most 16 characters, exactly 16 only when every field is full |
| `Encoder.PartsWithin` | SAYAC_Assembler.py:108-243 | each field text is at most the field's declared width |
| `Encoder.EncodeChars` | SAYAC_Assembler.py:108-243 | an encoding holds only `0`, `1`, `-` and `_` |
| `Encoder.EncodeStart` | SAYAC_Assembler.py:111-241 | an encoding starts with its 4-digit group literal and a `_` |
| `Encoder.EncodeGroup` | SAYAC_Assembler.py:111-241 | an encoding starts with `0010` exactly for `ldr`..`jmi`, and with `1111` exactly for `cmr`..`ntd2c` |
| `Encoder.TransferPlacement` | SAYAC_Assembler.py:108-134 | `ldr`..`jmrs` write `0010`, a 2-bit selector, a 1-bit selector and `0`, then `rs1` (operand 2) before `rd` (operand 1) |
| `Encoder.JumpImmediatePlacement` | SAYAC_Assembler.py:135-138 | `jmi rd imm` writes `0010_11`, the immediate in at most 6 digits, then `rd` |
| `Encoder.ThreeRegisterPlacement` | SAYAC_Assembler.py:139-203 | the three-register forms take `rd rs1 rs2` and write `rs1_rs2_rd` after the opcode |
| `Encoder.RegisterImmediatePlacement` | SAYAC_Assembler.py:144-193 | `ani`/`msi`/`mhi`/`adi`/`sui` take `rd imm` and write the immediate in at most 8 digits, then `rd` |
| `Encoder.RegisterPairPlacement` | SAYAC_Assembler.py:204-235 | `cmr`, `ntr` and `ntr2c` write their second register before their first |
| `Encoder.ShortOperandPlacement` | SAYAC_Assembler.py:208-219 | `cmi`/`brc`/`brr` write their first operand in at most 5 digits, then the register; the flag code of `brc`/`brr` is read by `hexToInt` |
| `Encoder.ShiftPlacement` | SAYAC_Assembler.py:220-227 | `shi`/`shila` write `1111_10`, a 1-bit selector, the shift amount in at most 5 digits, then `rd` |
| `Encoder.NotDestinationPlacement` | SAYAC_Assembler.py:236-241 | `ntd`/`ntd2c` write `1111_111`, a 1-bit selector and `0000`, then `rd` |
| `Encoder.SameLayoutEncodesAlike` | SAYAC_Assembler.py:166-185 | two mnemonics with the same layout encode every operand list identically |
| `Encoder.SecondNamesEncodeAlike` | SAYAC_Assembler.py:166-185 | `add`/`adr` and `sub`/`sur` are different mnemonics with identical encodings, so the encoding is not injective |
| `Encoder.TagLeadsParts` | SAYAC_Assembler.py:111-241 | a successful encoding starts with the tag of its mnemonic |
| `Encoder.EncodingDeterminesMnemonic` | SAYAC_Assembler.py:108-243 | two successful encodings that are equal come from the same mnemonic, or from `add`/`adr` or `sub`/`sur` |
| `Encoder.ExampleLoadReadsSourceFirst` | SAYAC_Assembler.py:108-111 | `ldr rx ry` raises on `y`: the `rs1` slot is evaluated before `rd` |
| `Encoder.WordsOfJoin` | SAYAC_Assembler.py:102 | non-empty, whitespace-free words joined by single spaces split back into those words |
| `Encoder.ParseWritten` | SAYAC_Assembler.py:101-243 | a line made of a mnemonic in any letter case and the right number of tokens is encoded by that mnemonic's branch on those tokens |
| `Encoder.ParseLineUnknown` | SAYAC_Assembler.py:105-106 | the line fails with `KeyError` exactly when its lower-cased first word is not a mnemonic |
| `Encoder.ParseLineKnown` | SAYAC_Assembler.py:106-107 | for a known mnemonic, a wrong operand count is `AssemblySyntaxError`; otherwise the line is that mnemonic's encoding |
| `Encoder.ParsedLine` | SAYAC_Assembler.py:105-243 | a line that assembles names a mnemonic, has its operand count and gives that branch's encoding, so the `Uncaught!` branch is never reached |
| `Driver.Assembler.constructor` | SAYAC_Assembler.py:88 | `binFileLines` starts empty |
| `Driver.Assembler.ParseInstruction` | SAYAC_Assembler.py:101-243 | a line that parses appends exactly its bit string and keeps earlier entries; a line that raises (unknown mnemonic, wrong count, bad number) leaves `binFileLines` unchanged |
| `Driver.Assembler.AssembleLines` | SAYAC_Assembler.py:251-252 | the loop appends the strings of the lines before the first failure and reports that failure, or appends every line's string |
| `Driver.Assembler.BinFileText` | SAYAC_Assembler.py:255-257 | the write loop produces a newline and then each of the first `lineCount` strings followed by a newline |
| `Driver.AssembleFile` | SAYAC_Assembler.py:248-259 | the run yields the `.bin` text of all bit strings, or the first failing line and its error |
| `Driver.Outcomes` | SAYAC_Assembler.py:251-252 | one outcome per input line |
| `Driver.OutcomeAt` | SAYAC_Assembler.py:251-252 | outcome `i` is that of line `i` |
| `Driver.Collect` | SAYAC_Assembler.py:251-252 | all strings in order when every line succeeds; otherwise the first failing index, every line before which succeeds |
| `Driver.CollectStep` | SAYAC_Assembler.py:251-252 | one more line extends the collected strings or ends the run with its error |
| `Driver.FirstFailureDecides` | SAYAC_Assembler.py:251-252 | the first failing line decides the outcome of the run |
| `Driver.AppendedLines` | SAYAC_Assembler.py:251-252 | the appended strings are those of the first lines in order: all lines, or the lines before the failure |
| `Driver.AssembledMeaning` | SAYAC_Assembler.py:251-252 | a run succeeds exactly when every line parses and then gives each line's string in order; otherwise it reports the first failing line |
| `Driver.BinFile` | SAYAC_Assembler.py:255-257 | the `.bin` text: a newline, then each bit string followed by a newline; `BinFileLines` and `FileReadsBack` give its meaning |
| `Driver.BinFileSnoc` | SAYAC_Assembler.py:256-257 | writing one more string adds it and a newline |
| `Driver.BinFileLines` | SAYAC_Assembler.py:255-257 | reading the `.bin` text back line by line gives an empty line, the strings in order, and nothing after the last newline |
| `Driver.ParsedLineChars` | SAYAC_Assembler.py:101-243 | each line's bit string holds only `0`, `1`, `-` and `_` |
| `Driver.FileReadsBack` | SAYAC_Assembler.py:255-257 | the `.bin` text of a successful run reads back into its bit strings |

## Left out

- File access, `sys.argv`, the version banner and the printed messages (lines 79-87, 246-267) are I/O. The loop takes the file's lines as a `seq<string>`. Each exception is a `Result` failure value that carries the 0-based line index instead of a printed message.
- Deriving the `.bin` file name from the input name (line 253) is not modelled, because it only feeds `open`.
- The `line` argument of `parseInstruction` only feeds the message of the guard at lines 103-104. That guard never fires (`Encoder.Words`), so the argument is omitted.
- Python's `int()` is modelled for an optional sign followed by ASCII digits, plus the `0x`/`0o`/`0b` prefixes for base 0. It does not accept surrounding whitespace, `_` digit separators or non-ASCII digits. `str.isspace()` is modelled on its Unicode list, but `lower()` is modelled only on ASCII letters.
