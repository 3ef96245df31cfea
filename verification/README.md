# KeyPad key detection

A Dafny model of the key-detection routine `KeyPad::getKey` of the Kl25z-labs
matrix keypad driver. The driver scans a 4x4 keypad wired to two ports. Rows
are driven low and the four column lines are read back as one nibble. A column
bit that reads 0 means a pressed key connects that column to a driven row.

`getKey` works in three phases:

1. **Detection read.** All rows are driven and the columns are read once. If
   no column is low (the nibble is `0xF`), it returns the numeric character 0.
2. **Row scan.** Rows 0 to 3 are driven one at a time. The scan stops at the
   first row whose read has a column low. If no row qualifies, it returns the
   character `'0'`.
3. **Debounce.** All rows are driven again and the columns are read up to 20
   times (`debounceDelay`). Each read is decoded against the found row: a
   nibble with exactly one column low (`0xE`, `0xD`, `0xB`, `0x7`) gives `keypadValues[column][row]`, and any other nibble gives 0. The
   loop stops when a decoded key equals the previous one, where the previous
   key starts at 0. It returns the last decoded key.

Every port read becomes a value supplied by the caller:

- the detection sample;
- four row samples, one for each row probe the scan might make;
- twenty debounce samples, one for each read the debounce loop might make.

`KeyPad.GetKey` keeps the source's two loops with `break`. It returns the key,
how many row samples it probed and how many debounce samples it read.
`KeyPad.ScanKey` is the reference definition it is proved equal to. The lemmas
in `KeyPadProperties` state what that outcome is for every input.

Files:

- `nibbles.dfy`: the column nibble and its bits. A bit reference (`IsLow`,
  `LowCount`) is used to state what the decode chain means.
- `keypad.dfy`: the decode chain, the scan and debounce specification
  functions, and the `GetKey` method.
- `keypad_properties.dfy`: lemmas about the outcome of `getKey`.

The C `char` 0 is modelled as `'\0'` (`KeyPad.NoKey`). The character `'0'`
returned at line 104 is `KeyPad.NoRowKey`. The two are different values.

Where the source's comments and its code disagree, the model follows the code:

- The comment on `getKey` (lines 55-59) says it returns `'0'` when no key is
  pressed. The code returns numeric 0 at line 82 when the detection read finds
  no column low. It returns 0 from the debounce loop when the key is released.
  Only the empty row scan returns `'0'` (line 104).
- The comment at line 133 speaks of a key stable for `debounceDelay`
  consecutive reads. The code stops at the first two equal consecutive decoded
  keys (lines 134-137). `KeyPadProperties.DebounceStableAfterTwoReads` states
  this.

## Model

| member | source | states |
|---|---|---|
| `Nibbles.LowCount` | MyLibrary/KeyPad/KeyPad.cpp:75-83 | The number of low column lines is at most 4, and it is 0 exactly when the nibble is `0xF`, the "no key pressed" value tested at lines 80 and 98. |
| `KeyPad.DecodeColumn` | MyLibrary/KeyPad/KeyPad.cpp:121-131 | The decode chain finds a column exactly when one column line alone is low, and the column it finds is that low line. |
| `KeyPad.KeyOf` | MyLibrary/KeyPad/KeyPad.cpp:121-131 | A sample with exactly one column low gives that column's table entry for the row. Any other sample gives 0, including several columns low at once. |
| `KeyPadProperties.KeyOfOneLow` | MyLibrary/KeyPad/KeyPad.cpp:121-128 | The samples with only column c low (`0xE`, `0xD`, `0xB`, `0x7`) give `keypadValues[c][row]`. |
| `KeyPad.FirstActiveRow` | MyLibrary/KeyPad/KeyPad.cpp:85-100 | The row scan picks the first row whose sample has a column low. Every earlier row sample is `0xF`. The result is the row count when no row qualifies. |
| `KeyPad.FirstActiveRowIsFirst` | MyLibrary/KeyPad/KeyPad.cpp:87-100 | A row whose earlier samples are all `0xF` and whose own sample is not `0xF` is the row the scan stops at. |
| `KeyPadProperties.FirstActiveRowIgnoresLaterRows` | MyLibrary/KeyPad/KeyPad.cpp:87-100 | The row found does not depend on the samples of rows after it, which are never probed. |
| `KeyPad.DebounceFrom` | MyLibrary/KeyPad/KeyPad.cpp:112-140 | From read i on, the loop makes at least one more read and stops no later than the last one. |
| `KeyPad.Debounce` | MyLibrary/KeyPad/KeyPad.cpp:106-142 | The debounce loop makes between 1 and `debounceDelay` reads. |
| `KeyPadProperties.DebounceFromSettles` | MyLibrary/KeyPad/KeyPad.cpp:112-140 | From read i on, the loop stops at the first read whose key equals the key before it, or at the last read. It returns that read's key. |
| `KeyPadProperties.DebounceSettlesAtFirstRepeat` | MyLibrary/KeyPad/KeyPad.cpp:107-142 | The loop makes n reads with 1 <= n <= 20. No read before the n-th equals its predecessor, where the predecessor of the first read is 0. If n < 20, the n-th read does equal its predecessor. The result is the key of the n-th read. |
| `KeyPadProperties.DebounceReleasedAtFirstRead` | MyLibrary/KeyPad/KeyPad.cpp:108-139 | A first debounce sample that decodes to 0 ends the loop after one read, with result 0. This holds whether the sample is not one column low or its table entry is itself 0. |
| `KeyPadProperties.DebounceStableAfterTwoReads` | MyLibrary/KeyPad/KeyPad.cpp:133-137 | Two equal non-zero keys in the first two reads end the loop after two reads with that key. The loop does not wait for 20 equal reads. |
| `KeyPadProperties.DebounceExhausted` | MyLibrary/KeyPad/KeyPad.cpp:112-142 | If no read equals its predecessor, all 20 reads are made and the key of the 20th read is returned. |
| `KeyPadProperties.DebounceFromIgnoresLaterReads` | MyLibrary/KeyPad/KeyPad.cpp:112-140 | From read i on, the outcome depends only on the samples the loop actually reads. |
| `KeyPadProperties.DebounceIgnoresUnreadSamples` | MyLibrary/KeyPad/KeyPad.cpp:107-142 | Changing the debounce samples after the last read does not change the debounce outcome. |
| `KeyPad.ScanKey` | MyLibrary/KeyPad/KeyPad.cpp:60-144 | `getKey` probes at most 4 rows and makes at most 20 debounce reads. |
| `KeyPad.GetKey` | MyLibrary/KeyPad/KeyPad.cpp:60-144 | The method with the source's loops returns exactly the key and sample counts of the reference definition. A `0xF` detection sample gives 0 with no row probe and no debounce read. The counts stay within 4 and 20. |
| `KeyPadProperties.ScanKeyOutcome` | MyLibrary/KeyPad/KeyPad.cpp:60-144 | A `0xF` detection sample gives 0 with no further reads. Four `0xF` row samples give `'0'` after four probes. Otherwise `getKey` probes up to and including the first row with a column low. It makes 1 to 20 debounce reads and returns 0 or one of the table entries of that row. |
| `KeyPadProperties.ScanKeyIgnoresUnreadSamples` | MyLibrary/KeyPad/KeyPad.cpp:75-142 | Samples that `getKey` does not read do not affect its result: no sample at all after a `0xF` detection, no row after the row found, and no debounce read after the one that ends the loop. |

## Left out

- Port configuration and register access (`init`, `rstRows`, `clrRows`, `setRows`, `rstColumns`, `setColumns`, the PDDR/PCOR writes and the PDIR reads at lines 12-53, 70-78, 89-93 and 114-119): these are memory-mapped I/O. Each PDIR read is replaced by a supplied sample.
- The `delay_ms` and `delay_us` calls (lines 62, 73, 95, 113, 116): timing only, with no logical effect.
- The pin masks D1 to D8 and the `>> 2` shift: they are defined in KeyPad.h, and KeyPad.h is not part of this model. Each read is taken to be the 4-bit column nibble.
- The contents of `keypadValues`: it is declared in KeyPad.h, which is not part of this model. It is an arbitrary 4x4 table of characters passed to every member.
- The row and debounce samples are given as fixed sequences of 4 and 20 values, the most reads `getKey` can make. What a sample would be at a given instant on real hardware is not modelled.
- What a debounce sample can be: `setRows()` at line 114 makes all four rows outputs, and their output bits stay cleared from `clrRows()` at line 71, so every row is driven low during each debounce read. A debounce sample therefore shows keys pressed on any row, while the decode at lines 122-128 uses the found row. The model's debounce samples are unconstrained, so they include these readings, but no member states which physical keys produce them.
- The CNC controller (MyLibrary/CNCController/CNCControler.h): it holds declarations only, with no method bodies. It rests on floating-point state, trigonometry and a stepper driver class that is not part of this model.
