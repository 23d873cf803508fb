# gb2312utf8table in Dafny

gb2312utf8table.c prints a GB2312 to UTF-8 table. For every (block, position)
pair in the symbol blocks 1..9 and the character blocks 16..87, `main` does
three things:

- It builds the two-byte GB2312 code with `encodeGB2312`.
- It asks iconv for the UTF-8 bytes of that code.
- When iconv wrote at least one byte, it decodes the bytes to a Unicode value
  with `utf2unicode` and prints a row.

A leading byte that `utf2unicode` does not accept ends the program through
`err_sys`.

The model has four modules:

- `Wrappers` holds the `Option`/`Result` types and the single error value,
  which stands for `err_sys("utf2unicode: invalid utf")`.
- `Gb2312` models `encodeGB2312`:
  - `Code` is the pure encoding.
  - `EncodeGb2312` is the method that writes the caller's two-byte buffer.
  - Lemmas cover the code bytes, injectivity, order, and the wrap-around of
    the `unsigned char` store outside the grid.
- `Utf8` models the leading-byte macros REMOVE_R1 and IS_UTF8_1..4, plus two
  functions:
  - `length_utf8` becomes the function `LengthUtf8`.
  - `utf2unicode` becomes the method `Utf2Unicode`, a loop over a 6-byte
    array. It is proved equal to the function `Unicode`.
  - Lemmas relate decoding to the bit layout of section 3 of RFC 3629 and
    give the value bounds.
- `Table` models the loops of `main`. The iconv conversion is a function
  parameter (`Converter`).
  - `BuildTable` is proved to produce `MainOutcome(convert)`, which is a fold (`Run`)
    of `StepOf` over the enumeration `Pairs()`.
  - The lemmas then describe the enumeration:
    - 7614 pairs, ascending, with no reserved block.
  - They also describe the printed rows:
    - Rows come only from successful conversions, in ascending GB2312 order.
    - The run aborts exactly when some pair's bytes have an invalid leading
      byte.
    - A completed run prints every row.

Where the code and its comments disagree, the model follows the code. The
comment at line 48 describes four-byte leading bytes as `1111xxxx`. The
IS_UTF8_4 macro (mask 0xF8 against 0xF0) accepts only `11110xxx`, so
0xF8..0xFF are invalid leading bytes (`MacroRanges`, `LengthUtf8`).

`gb2utf8` (lines 145-157) tests `iconv(...) < 0`. iconv returns a `size_t`,
so that test never succeeds. The function always returns the number of bytes
iconv wrote into the 6-byte buffer, and `main` skips a pair exactly when that
number is 0. The model's `Converter` gives those written bytes directly:

- `None` or an empty sequence means nothing was written, so the pair is skipped.
- Otherwise the bytes land at the start of the buffer (`Buffer`).

## Model

| member | source | states |
|---|---|---|
| `Gb2312.Code` | gb2312utf8table.c:138-142 | the code of a pair is always exactly GB2312_SIZE = 2 bytes |
| `Gb2312.EncodeGb2312` | gb2312utf8table.c:138-142 | after the call the caller's buffer holds exactly `Code(block, pos)`: each byte is the `int` value plus 0xA0, reduced modulo 256 |
| `Gb2312.OffsetByteInGrid` | gb2312utf8table.c:30-36 | for a number in 1..94 no wrap-around happens: the byte is 0xA0 + n, lies in 0xA1..0xFE, and subtracting the offset gives n back |
| `Gb2312.CodeByteNumber` | gb2312utf8table.c:35-36 | every byte in 0xA1..0xFE stands for exactly one number in 1..94 |
| `Gb2312.CodeInGrid` | gb2312utf8table.c:35-38 | the code of a grid pair is [block + 0xA0, pos + 0xA0], both bytes in 0xA1..0xFE, and the pair can be read back from it |
| `Gb2312.CodeOfNumbers` | gb2312utf8table.c:35-36 | every two bytes in 0xA1..0xFE are the code of the grid pair their numbers name, so on the grid the encoding is onto the 94 x 94 codes |
| `Gb2312.CodeInjective` | gb2312utf8table.c:138-142 | two grid pairs with the same code are the same pair |
| `Gb2312.CodeWraps` | gb2312utf8table.c:140 | the `unsigned char` store wraps: blocks 256 apart get the same code |
| `Gb2312.FirstOfBlock16` | gb2312utf8table.c:38 | the first character of block 16 is coded 0xB0A1 |
| `Gb2312.CodeOrder` | gb2312utf8table.c:35-36 | on the grid, (block, position) order and the order of the codes as 16-bit numbers agree, in both directions |
| `Gb2312.OffsetByte` | gb2312utf8table.c:140-141 | the byte an `unsigned char` receives from `n + GB2312_OFFSET`: congruent to it modulo 256, and equal to it whenever it lies in 0..255 |
| `Utf8.RemoveR1` | gb2312utf8table.c:61-62 | the bits removed are exactly the lowest set bit of the byte (`c ^ r == c & -c`), so the result is smaller than a non-zero byte and keeps all its other bits |
| `Utf8.IsUtf8One` | gb2312utf8table.c:71 | IS_UTF8_1 holds exactly for bytes below 0x80 |
| `Utf8.IsUtf8N` | gb2312utf8table.c:69 | IS_UTF8_N: the bits under the mask equal REMOVE_R1 of the mask; its ranges for the three masks are stated by `MacroRanges` |
| `Utf8.LeadOf` | gb2312utf8table.c:190-203 | the leading-byte if-chain of `utf2unicode`: it fails with the `err_sys` error exactly on 0x80..0xBF and 0xF8..0xFF; otherwise it gives a length 1..4 (1 with the byte itself exactly below 0x80) and a payload below 2^5, 2^4 or 2^3 for lengths 2, 3 and 4 |
| `Utf8.ShiftIn` | gb2312utf8table.c:207 | one turn of the loop: the low 6 bits of the new value are those of the byte, and above them sits the old value shifted by 6, its top 6 bits lost in 32 bits |
| `Utf8.Accumulate` | gb2312utf8table.c:206-208 | the value after the loop over the continuation bytes; its low 6 bits are those of the last byte shifted in |
| `Utf8.Unicode` | gb2312utf8table.c:181-211 | the value `utf2unicode` returns: the `err_sys` error exactly on leading bytes 0x80..0xBF and 0xF8..0xFF, the byte itself for a one-byte sequence; its layout, bounds and round trips are stated by `UnicodeIsLayout`, `UnicodeBelow21Bits`, `DecodeEncode` and `EncodeDecode` |
| `Utf8.MacroRanges` | gb2312utf8table.c:62-74 | REMOVE_R1 of the three masks is 0xC0, 0xE0 and 0xF0; IS_UTF8_1 holds exactly below 0x80, IS_UTF8_2 exactly on 0xC0..0xDF, IS_UTF8_3 exactly on 0xE0..0xEF, IS_UTF8_4 exactly on 0xF0..0xF7 |
| `Utf8.LengthUtf8` | gb2312utf8table.c:160-178 | the length is 1, 2, 3 or 4 exactly on the leading-byte ranges of the macros; it is the `err_sys` error exactly on 0x80..0xBF and 0xF8..0xFF |
| `Utf8.Buffer` | gb2312utf8table.c:145-157 | the buffer is UTF8_MAX = 6 bytes long and starts with the bytes the conversion wrote, up to 6 of them |
| `Utf8.Utf2Unicode` | gb2312utf8table.c:181-211 | the loop returns exactly `Unicode` of the buffer: the decoded value, or the `err_sys` error for an invalid leading byte |
| `Utf8.LengthAgrees` | gb2312utf8table.c:160-211 | `length_utf8` and `utf2unicode` accept the same leading bytes and choose the same length for them |
| `Utf8.UnicodeDependsOnPayloadBits` | gb2312utf8table.c:205-208 | the decoded value depends only on the leading byte and the low 6 bits of the next len - 1 bytes; the top two bits of a continuation byte are not checked and do not matter |
| `Utf8.UnicodeReadsLenBytes` | gb2312utf8table.c:206 | buffers that agree on their first len bytes decode to the same value: no byte past the sequence is read |
| `Utf8.AccumulateLowBits` | gb2312utf8table.c:206-208 | the shift loop gives the same value for continuation bytes that agree on their low 6 bits |
| `Utf8.UnicodeIsLayout` | gb2312utf8table.c:190-210 | an n-byte sequence decodes to its bit layout as section 3 of RFC 3629 lays it out, which is below 2^7, 2^11, 2^16 or 2^21 for n = 1..4 |
| `Utf8.UnicodeBelow21Bits` | gb2312utf8table.c:81-82 | every decoded value fits in 21 bits, so the 32-bit UNICODE never overflows |
| `Utf8.SingleByteUnchanged` | gb2312utf8table.c:190-191 | a one-byte sequence decodes to its own byte value |
| `Utf8.EncodeScalar` | gb2312utf8table.c:42-52 | the RFC 3629 encoding of a value with n bytes is n bytes long |
| `Utf8.DecodeEncode` | gb2312utf8table.c:160-211 | the RFC 3629 encoding of any value below the n-byte capacity announces length n to `length_utf8` and decodes back to the value |
| `Utf8.EncodeDecode` | gb2312utf8table.c:181-211 | a sequence whose continuation bytes are all `10xxxxxx` decodes to a value below the n-byte capacity whose RFC 3629 encoding is exactly the first n bytes |
| `Utf8.Example21834` | gb2312utf8table.c:14 | e5 95 8a is the encoding of 21834 and decodes to 21834; the byte 0x41 decodes to 65 |
| `Table.Positions` | gb2312utf8table.c:118 | the pairs (block, 1) .. (block, n) the `i` loop visits: n of them, all in the block, positions 1..n |
| `Table.Blocks` | gb2312utf8table.c:117-118 | the pairs the `block` and `i` loops visit for blocks start..end: 94 per block, every position in 1..94 |
| `Table.Enumerate` | gb2312utf8table.c:111-118 | the pairs the three loops visit for a region table, region by region; every position is in 1..94 |
| `Table.Pairs` | gb2312utf8table.c:99-118 | the pairs `main` visits for GB2312_region_block {{1,9},{16,87}}; every position is in 1..94, and `PairsShape` gives the count, membership and order |
| `Table.StepOf` | gb2312utf8table.c:120-126 | what one pair contributes: a skip exactly when the conversion wrote nothing, an abort only with the `err_sys` error, and a row that always carries the pair's code and a 6-byte buffer |
| `Table.Extend` | gb2312utf8table.c:124-125 | the outcome after one more pair: printed rows only grow, by at most one; an aborted run stays as it is; the run is aborted afterwards exactly when it was before or the step aborts |
| `Table.Run` | gb2312utf8table.c:111-133 | the outcome of the loops over a sequence of pairs, stopping at the first `err_sys`; at most one row per pair |
| `Table.MainOutcome` | gb2312utf8table.c:93-134 | what `main` prints for a conversion, and whether it exits with 0 or through `err_sys`; at most one row per visited pair |
| `Table.ProcessPair` | gb2312utf8table.c:120-126 | the body of the inner loop gives exactly `StepOf` for the pair: skip, a row, or the `err_sys` exit |
| `Table.ProcessBlock` | gb2312utf8table.c:118-127 | the `i` loop extends the run by the 94 positions of one block, and stops at the first abort |
| `Table.ProcessRegion` | gb2312utf8table.c:117-128 | the `block` loop extends the run by blocks start..end, and stops at the first abort |
| `Table.BuildTableOf` | gb2312utf8table.c:111-129 | the `k` loop over a region table yields the run over the enumeration of that table |
| `Table.BuildTable` | gb2312utf8table.c:93-134 | `main`'s loops over GB2312_region_block produce exactly the `MainOutcome` of the conversion |
| `Table.AbortedPrefix` | gb2312utf8table.c:213-217 | once the run has reached `err_sys` no later pair changes the outcome |
| `Table.BlocksShape` | gb2312utf8table.c:117-118 | the pairs of blocks start..end are 94 per block, exactly the grid pairs of those blocks, in ascending order |
| `Table.PositionsShape` | gb2312utf8table.c:118 | the `i` loop visits (block, 1) .. (block, n), n pairs in ascending order |
| `Table.PairsShape` | gb2312utf8table.c:99-118 | `main` visits 7614 pairs, exactly the grid pairs of blocks 1..9 and 16..87, never a reserved block, in strictly ascending order |
| `Table.AbortIff` | gb2312utf8table.c:124-125 | a run ends in `err_sys` exactly when one of its pairs aborts |
| `Table.RunRows` | gb2312utf8table.c:111-133 | a completed run prints all emitted rows in order; an aborted run stops at its first aborting pair and prints the rows emitted before it |
| `Table.EmittedSound` | gb2312utf8table.c:124-125 | every printed row is the row of one of the visited pairs |
| `Table.EmittedComplete` | gb2312utf8table.c:124-125 | the row of every visited pair that emits one is printed |
| `Table.EmittedOrdered` | gb2312utf8table.c:111-129 | pairs visited in ascending order whose rows carry their own code print the rows in ascending code order |
| `Table.StepCases` | gb2312utf8table.c:120-126 | a pair is skipped exactly when nothing was written; it aborts exactly when the leading byte is invalid; otherwise its row holds the pair's code, the buffer and its decoded value, below 2^21, which `length_utf8` in `printOutput` also accepts |
| `Table.StepRoundTrip` | gb2312utf8table.c:123-125 | when the conversion writes the RFC 3629 encoding of u, the pair's row carries u |
| `Table.FirstHanziRow` | gb2312utf8table.c:14 | a conversion of b0a1 to e5 95 8a gives the row b0a1, e5958a, 21834 |
| `Table.TableRowsSound` | gb2312utf8table.c:111-129 | every printed row belongs to a pair of the regions, with a code in 0xA1..0xFE twice, a buffer `length_utf8` accepts, and the value it decodes to below 2^21 |
| `Table.TableRowsOrdered` | gb2312utf8table.c:111-129 | the printed rows are in strictly ascending GB2312 order |
| `Table.TableAborts` | gb2312utf8table.c:124-125 | `main` ends in `err_sys` exactly when some pair of the regions converts to bytes with an invalid leading byte |
| `Table.TableComplete` | gb2312utf8table.c:111-133 | a run that reaches `exit(0)` prints the row of every pair of the regions whose conversion succeeded |

## Left out

- iconv (`iconv_open`, `iconv`, `iconv_close`): the conversion is the
  parameter `Converter`, which gives the bytes written. A failure of
  `iconv_open` is not modelled.
- `gb2utf8`'s `buf_in` / `buf_out` bookkeeping: only its result is
  modelled, namely the bytes written into the 6-byte buffer.
- `printOutput` and all output, including the `fwrite` failure message. The
  model stops at the row that is handed to `printOutput`. `StepCases` proves
  that the `length_utf8` call there always succeeds on a printed row.
- `err_sys` and `exit`: `perror` and the process exit become the error value
  `InvalidUtf8`, and the run stops as `Aborted` with the rows printed before.
- Buffer bytes the conversion did not write: they are uninitialised in C and
  are taken as 0. Decoding reads only the first len bytes
  (`UnicodeReadsLenBytes`), so their value matters only when the conversion
  wrote fewer bytes than the leading byte announces.
- C types: the signed `char` in `length_utf8` does not change any of the
  mask tests, so both functions read the byte as unsigned. An `int` bigger
  than 255 in `encodeGB2312` is reduced modulo 256. GB2312 bytes are
  integers 0..255 and UTF-8 bytes are `bv8`; UNICODE is `bv32`.
- The loops of `main` are split into three methods (`ProcessBlock`,
  `ProcessRegion`, `BuildTableOf`), one per loop level, with `ProcessPair`
  as the loop body.
- Full RFC 3629 validity: continuation bytes are not checked by the program,
  and neither are overlong forms, surrogates or values above 0x10FFFF. The
  model claims nothing about them beyond `EncodeDecode` and `DecodeEncode`.
