# Speed-Buzz sampler, modelled in Dafny

Speed-Buzz is a GNOME Shell panel widget that shows the current network
throughput. Once a second a timer calls `updateNetSpeed`. That function:

- reads the kernel's interface counter table (`/proc/net/dev`);
- tokenises each line on runs of non-word characters;
- keeps the rows whose name is not `lo` and does not start with `br`, `tun`, `tap`, `vnet` or `virbr` followed by a digit (other bridges and tunnels, such as `docker0`, `veth…` or `wg0`, are counted);
- sums their received bytes (column 1) and transmitted bytes (column 9) as bits;
- turns the difference from the last successful tick into a rate in Kbps;
- scales each rate to Kbps, Mbps, Gbps or Tbps with `getFormattedSpeed`, and writes both rates into the panel label.

This project models that tick and the formatter in two modules.

- `Js` (`js.dfy`) gives exact meaning to the JavaScript built-ins the sampler relies on:
  - numbers with NaN propagation (`Number`);
  - `String.prototype.trim` (`Trim`);
  - `split(/\W+/)` (`Split`);
  - `parseInt` without a radix (`ParseInt`): an optional `0x` prefix, the longest digit prefix, and NaN when there is no digit.
- `NetSpeed` (`net_speed.dfy`) models the sampler itself:
  - the constants;
  - the scan, as specification functions over the lines of the table. The scan visits the longest prefix of rows with more than two columns (`Scanned`), keeps rows through the interface filter of `updateNetSpeed` (src/extension.js:39, `Kept`), and sums each row's contribution (`Total`, `DownloadBits`, `UploadBits`);
  - `Speed`, the rate;
  - the `getFormattedSpeed` loop (`GetFormattedSpeed`), proved against the predicate `Scaled`;
  - a class `NetSpeedMonitor`. Its fields are the module-level state: `prevUploadBits`, `prevDownloadBits` and the label.
  - `UpdateNetSpeed`, one tick, with its three outcomes. With no label it does nothing. When the read fails it shows the placeholder text and stops the timer. Otherwise it stores the new totals, shows both scaled rates and keeps the timer.
  - `SumCounters`, the `for` loop of the tick with its early `break`. It is a method of its own and is proved equal to the two totals.

Numbers are exact rationals (`real`). IEEE-754 rounding does not arise in the model.

Behaviours of the code a reader might not expect:

- The unit index is not clamped at `Tbps`. A rate of `1024^4` Kbps or more prints the unit `undefined` (`UnitUndefinedPastTbps`).
- A counter that went down gives a negative rate, which is shown as is (`Speed`).
- The two header lines are not skipped by position. They drop out only because their column 1 (`Receive`, `bytes`) does not parse as an integer (`NonNumericColumnOneExcluded`, `HeaderLinesExcluded`).
- The scan stops at the first line with at most two columns. It does not skip that line and go on (`ScanStopsAtNonRecord`).
- Only the bit-rate mode exists: totals are bytes times 8, and units are `Kbps` to `Tbps`.
- A name holding a non-word character (`br-1a2b`, `eth0.100`) is split in two. Its second half becomes column 1 and every counter moves one column to the right (`SeparatorInNameShiftsColumns`). A docker bridge `br-1a2b` passes the name test, because column 0 is only `br`, and is counted with `parseInt("1a2b")`, that is 1, as its received bytes (`DockerBridgeIsCounted`).
- A counted row with fewer than ten columns makes the upload total NaN (`MissingUploadColumnGivesNaN`). The download total is never NaN (`DownloadTotalIsCount`).

## Model

| member | source | states |
|---|---|---|
| NetSpeed.NetSpeedMonitor.constructor | src/extension.js:21-23 | both previous counters start at 0; the label holds the placeholder text when `enable` created it, otherwise there is none |
| NetSpeed.NetSpeedMonitor.UpdateNetSpeed | src/extension.js:25-62 | with no label: returns false and changes nothing. On a read failure: the label becomes the placeholder, the counters are unchanged, returns false. Otherwise: the counters become exactly the new totals, the label shows the two rates scaled as `getFormattedSpeed` scales them, returns true. The received-bits counter stays a non-negative number throughout |
| NetSpeed.SumCounters | src/extension.js:29-43 | the loop with its early `break` computes exactly the transmitted-bit and received-bit totals of the scanned rows |
| NetSpeed.Columns | src/extension.js:33-34 | the columns of a line, trimmed then split; its meaning is stated by `TrimSpec`, `SplitTokens` and the header lemmas |
| NetSpeed.IsVirtualName | src/extension.js:39 | the five anchored name patterns; its meaning is stated by `VirtualNameIff` |
| NetSpeed.Contributes | src/extension.js:39 | the condition of the `if`; its meaning is stated by `KeptIff` |
| NetSpeed.Kept | src/extension.js:36-39 | a row the scan reaches the `if` with and the `if` accepts; its meaning is stated by `KeptIff` |
| NetSpeed.ColumnValue | src/extension.js:40-41 | `parseInt(column[c])`, NaN for a missing column; its meaning is stated by `MissingUploadColumnGivesNaN` and `DownloadTotalIsCount` |
| NetSpeed.Total | src/extension.js:39-41 | the `+=` sum of one column over the rows; its meaning is stated by `TotalIsBitsOfKeptSum` and `TotalStep` |
| NetSpeed.DownloadBits | src/extension.js:29-43 | the received-bits total of the scanned rows; `SumCounters` computes it |
| NetSpeed.UploadBits | src/extension.js:29-43 | the transmitted-bits total of the scanned rows; `SumCounters` computes it |
| NetSpeed.Scanned | src/extension.js:32-37 | the rows the scan visits are a prefix of the table, all have more than two columns, and the row after them (if any) has at most two |
| NetSpeed.ScannedIsPrefix | src/extension.js:32-37 | any prefix of rows with more than two columns, followed by the end or by a short row, is exactly what the scan visits |
| NetSpeed.ScanStopsAtNonRecord | src/extension.js:36-37 | once a line has at most two columns, replacing every line after it changes neither the scanned rows nor either total |
| Js.Split | src/extension.js:34 | splitting always yields at least one piece, so column 0 always exists |
| Js.SplitTokens | src/extension.js:34 | every column is made of word characters; only the first and the last can be empty; the first is empty exactly when the line does not start with a word character |
| Js.SplitJoin | src/extension.js:34 | round trip: tokens made of word characters, none empty except possibly the first and the last, joined by a non-word separator split back into the same tokens |
| Js.SplitSeparatorRun | src/extension.js:34 | a whole run of non-word characters before a word (or the end) counts as one separator and yields one empty piece |
| Js.SplitWordThenRun | src/extension.js:34 | a word followed by a run of non-word characters is the first piece, and splitting goes on after the run |
| Js.SplitTwoWords | src/extension.js:34 | two words, each followed by a run of non-word characters, are the first two pieces |
| Js.SplitOneWord | src/extension.js:34 | a single word splits into itself |
| Js.Trim | src/extension.js:33 | `trim`; its meaning is stated by `TrimSpec` and `TrimDropsWhiteSpace` |
| Js.TrimStartRemovesPrefix | src/extension.js:33 | the leading part dropped is all white space and what remains does not start with white space |
| Js.TrimEndRemovesSuffix | src/extension.js:33 | the trailing part dropped is all white space and what remains does not end with white space |
| Js.TrimSpec | src/extension.js:33 | `trim` keeps a contiguous slice of the line that neither starts nor ends with white space |
| Js.TrimDropsWhiteSpace | src/extension.js:33 | everything `trim` drops, on either side, is white space |
| Js.TrimKeepsTrimmed | src/extension.js:33 | a line with no white space at either end is left unchanged |
| Js.TrimKeepsWordEnds | src/extension.js:33 | a line that begins and ends with a word character is left unchanged |
| Js.TrimStartSkipsWhiteSpace | src/extension.js:33 | a leading white-space character makes no difference to `trim` |
| Js.TrimIdempotent | src/extension.js:33 | trimming twice is trimming once |
| Js.ParseInt | src/extension.js:39-41 | the result is NaN or a non-negative integer; it is a number exactly when the token starts with a digit and, after a `0x` prefix, at least one hex digit follows |
| Js.DigitRunIsMaximal | src/extension.js:39-41 | `parseInt` reads all the digits before the first non-digit and stops there |
| Js.ParseIntDecimal | src/extension.js:39-41 | round trip: `parseInt` reads back the decimal numeral of every natural number |
| NetSpeed.NonNumericColumnOneExcluded | src/extension.js:39 | a row whose column 1 does not start with a digit is not kept and adds nothing to either total |
| NetSpeed.WordLineIsTrimmed | src/extension.js:33 | a line that begins with a word and ends with a word is unchanged by `trim` |
| NetSpeed.ColumnsOfWords | src/extension.js:33-34 | a line of two words, each followed by a run of non-word characters, and a remainder that begins and ends with a word character has those two words as columns 0 and 1, followed by the pieces of the remainder |
| NetSpeed.ColumnsOfThreeWords | src/extension.js:33-34 | a line of three words separated by runs of non-word characters has exactly those three columns |
| NetSpeed.ReceiveHeaderColumns | src/extension.js:33-34 | the first header line of `/proc/net/dev`, whose words are separated by runs of spaces, dashes and bars, has exactly the columns `Inter`, `Receive` and `Transmit` |
| NetSpeed.FieldHeaderColumns | src/extension.js:33-34 | the second header line, which begins with a space, has more than two columns, and columns 0 and 1 are `face` and `bytes` |
| NetSpeed.SeparatorInNameShiftsColumns | src/extension.js:33-34 | a name with a non-word character inside yields two columns, so the counters start at column 2 instead of 1 |
| NetSpeed.DockerBridgeIsCounted | src/extension.js:33-41 | a `br-1a2b` line is counted whatever its counters, and its column 1 reads as 1 |
| NetSpeed.HeaderLinesExcluded | src/extension.js:33-39 | neither header line of `/proc/net/dev` is counted |
| NetSpeed.PrefixThenDigitMeans | src/extension.js:39 | one anchored pattern `^prefix[0-9]+` matches a name only when the name begins with the prefix and the character after it is a digit |
| NetSpeed.VirtualNameIsPrefixMatch | src/extension.js:39 | every name that starts with `br`, `tun`, `tap`, `vnet` or `virbr` followed by a digit is filtered out, whatever follows the digit |
| NetSpeed.VirtualNameIsOnlyPrefixMatch | src/extension.js:39 | conversely, a filtered-out name is always one of the five prefixes, then a digit, then anything |
| NetSpeed.VirtualNameIff | src/extension.js:39 | both directions together: a name is filtered out exactly when it is one of the five prefixes followed by a digit and anything |
| NetSpeed.KeptIff | src/extension.js:36-39 | a row is counted exactly when it has more than two columns, column 0 is not `lo`, column 1 is a numeral `parseInt` reads, and column 0 is not one of the five prefixes followed by a digit |
| NetSpeed.VirtualNameExamples | src/extension.js:39 | `br0`, `tun0` and `tap3` are filtered out |
| NetSpeed.VmBridgeNameExamples | src/extension.js:39 | `vnet1`, `virbr0` and `br12x` are filtered out |
| NetSpeed.RealNameExamples | src/extension.js:39 | `eth0`, `wlan0`, `enp3s0`, `br`, `bridge0` and `lo` are not virtual names |
| NetSpeed.TotalIsBitsOfKeptSum | src/extension.js:39-41 | each total is 8 times the plain sum of its column over the kept rows, in order |
| NetSpeed.TotalStep | src/extension.js:40-41 | scanning one more row adds exactly that row's contribution |
| NetSpeed.ScanStep | src/extension.js:36-41 | scanning one more row with more than two columns adds its column times 8 when the filter keeps it, and nothing otherwise |
| NetSpeed.SumOfCounts | src/extension.js:40-41 | a sum of non-negative numbers is a non-negative number |
| NetSpeed.DownloadTotalIsCount | src/extension.js:39-41 | the received-bits total is never NaN and never negative |
| NetSpeed.SumIsNaN | src/extension.js:40-41 | a running `+=` sum is NaN exactly when one of its terms is |
| NetSpeed.TotalIsNaN | src/extension.js:40-41 | a total is NaN exactly when some kept row has no number in that column |
| NetSpeed.MissingUploadColumnGivesNaN | src/extension.js:40-46 | a counted row with no column 9 makes the transmitted-bits total and the upload rate NaN |
| NetSpeed.SumPermutation | src/extension.js:40-41 | a sum does not depend on the order of its terms |
| NetSpeed.TotalPermutation | src/extension.js:40-41 | the totals do not depend on the order in which the rows' contributions are added |
| NetSpeed.SumMonotone | src/extension.js:40-41 | if no term went down, the sum did not go down |
| NetSpeed.TotalMonotone | src/extension.js:40-41 | if no row's contribution went down, the total did not go down |
| NetSpeed.Speed | src/extension.js:46-49 | the rate is a number exactly when both totals are. Times `refreshTime * unitBase` it gives back the difference. It is non-negative exactly when the total did not go down, so a decrease is shown as a negative rate |
| NetSpeed.DownloadRateIsNumber | src/extension.js:41-49 | the download rate is always a number |
| NetSpeed.SpeedNonNegative | src/extension.js:40-49 | between two samples whose kept rows line up and whose counters did not go down, the rate is a non-negative number |
| NetSpeed.DivideStep | src/extension.js:66-68 | one pass of the loop keeps value times 1024 to the index equal to the input, and strictly shrinks the value |
| NetSpeed.ReachedStep | src/extension.js:66-68 | one pass of the loop from a reachable state reaches another: value times 1024 to the index still gives back the input, the value stays at least 1, and its integer part strictly shrinks |
| NetSpeed.GetFormattedSpeed | src/extension.js:64-69 | the result is `Scaled`: the value left is below 1024, at least 1 if any division happened, and times 1024 to the index gives back the input; NaN leaves the loop at once with index 0 |
| NetSpeed.ScaledBracket | src/extension.js:66-69 | the index `i` places the input below `1024^(i+1)` and, when `i > 0`, at or above `1024^i` |
| NetSpeed.ScaledIndex | src/extension.js:65-69 | the index is 0 exactly when the input is below 1024; it is a valid index into `units` exactly when the input is below `1024^4`; a negative input is left unchanged with index 0 |
| NetSpeed.ScaledUnique | src/extension.js:66-69 | the loop's value and index are the only pair with these properties |
| NetSpeed.ScaledOneStep | src/extension.js:66-69 | exactly 1024 Kbps is shown as 1 Mbps, never as 1024 Kbps |
| NetSpeed.Formatted.Unit | src/extension.js:70 | `units[i]`, `undefined` past the end; its meaning is stated by `UnitUndefinedPastTbps` |
| NetSpeed.UnitUndefinedPastTbps | src/extension.js:70 | the unit printed is `undefined` exactly when the rate reaches `1024^4` Kbps, because the index is not clamped |

## Left out

- `enable` and `disable` (src/extension.js:73-107) create and destroy the panel widget and the timer. The model takes "the label exists" as a constructor argument. `disable` does not reset `prevUploadBits` and `prevDownloadBits`, so after a `disable` and a second `enable` the first tick computes its rate against the counters of the earlier session; the constructor's zero counters stand only for the first `enable` after the module is loaded.
- The file read (src/extension.js:28) is a parameter of `UpdateNetSpeed`: either the lines of the file or a read failure. The split of the file text on `'\n'` is not modelled; the model receives the lines.
- The GLib timer (src/extension.js:90, 95) is not modelled. Its only interaction with the tick is the boolean result, which tells the timer whether to run again.
- Exceptions other than a failed read, such as `set_text` throwing, are not modelled.
- NetSpeed.GetFormattedSpeed: returns the scaled value and the unit index, not the string `toFixed(2) + " " + units[i]`. Decimal rendering with two places is not modelled.
- NetSpeed.NetSpeedMonitor.UpdateNetSpeed: the label holds the two scaled rates (`Speeds`), not the concatenated text of line 52.
- Numbers are exact rationals. IEEE-754 rounding and the loss of precision for counters above 2^53 are not modelled, so `SumPermutation` holds in the model where floating-point addition might differ in the last bit. The model also has no Infinity. This hides one behaviour: a bit total (8 times a column, or the running sum of lines 40-41) that exceeds the largest double, about 1.8 × 10^308, becomes Infinity, and the loop of `getFormattedSpeed` (src/extension.js:66) then never ends, since Infinity divided by 1024 is still Infinity. The kernel's 64-bit counters never get near that. In the model every rate is finite and the loop always ends.
- Js.ParseInt: does not strip leading white space or a sign, because no `\W+` token can hold either.
- Js.Trim: the white-space set is the fixed list of ECMAScript WhiteSpace and LineTerminator characters. No other Unicode property is consulted.
- NetSpeed.NetSpeedMonitor.Valid: constrains only the received-bits counter, because the transmitted-bits counter can legitimately become NaN.
