# pinSetup: GPIO export tool for the Raspberry Pi, modelled in Dafny

`pinSetup` takes pin numbers on the command line and hands them to the Linux
sysfs GPIO driver. Each argument goes through `atoi` and is searched for in
the board's fixed table of 26 GPIO pin numbers. A pin found in the table
gets an "Exported pin N" message and a `GPIOExport` call, which writes the
pin's decimal text to `/sys/class/gpio/export`. Any other value gets a
warning and is overwritten with the mark -1 in the `pins` array.

The model is two modules:

- `Conversions` (`conversions.dfy`) covers the C library calls the tool
  relies on. `Atoi` is `atoi`: an optional sign, then the leading digits;
  no digits gives 0. `FormatInt` is the text `%d` produces, and `Snprintf`
  is `snprintf` into a fixed buffer, which truncates and NUL-terminates.
- `PinSetup` (`pin_setup.dfy`) covers the tool itself.
  - `LegalPins` is the table. `IsLegal` is the table search from index 0.
  - `GpioExport` is `GPIOExport`. `SearchAndExport` is the table search
    loop with its `break`. `ConvertAndCheck` is the body of `main`'s loop
    over the arguments, and `Run` is `main`.

The sysfs file and the two output streams are replaced by one trace of
`Event`s. Messages and warnings are events that carry the pin number. The
events from the export file are OpenOk, OpenFailed, Write, Fsync and Close.
Whether the export file opens is not decided by the program, so `Run` takes
it as the parameter `openOk`, with one entry per argument. The spec functions are:

- `ExportTrace` and `ArgTrace`: the events of one export call and of one argument.
- `MainTrace`: the events of a whole run.
- `Marked`: what is left in `pins[i]`.
- `Pins`: the pin numbers carried by messages, warnings or export calls.

The methods are proved to produce exactly these. The lemmas then state what
the tool promises in terms of these functions.

The program has no flags, no unexport and no direction setting: every
argument is a request to export that pin. A non-numeric argument becomes 0
through `atoi` and gets the illegal-pin warning. Duplicate arguments are not
merged; each occurrence is exported again (`DuplicatesExportedTwice`).

`GPIOExport` returns -1 when the open fails. On the success path it falls off
the end of the function without a `return`, so its result is undefined. The
model calls that result `NoValue`. `main` ignores the result either way.

## Model

| member | source | states |
|---|---|---|
| `PinSetup.LegalPinsDistinct` | C_programming/pinSetup/pinSetup.c:21-24 | the table has GPIO_AMNT = 26 entries and no two are equal, so the search can match at most one index |
| `PinSetup.IsLegalMeans` | C_programming/pinSetup/pinSetup.c:39-47 | the search from index 0 finds a pin iff the pin is one of the table's entries |
| `PinSetup.LegalIsRange` | C_programming/pinSetup/pinSetup.c:23-24 | a pin is legal iff 2 <= pin <= 27, so negatives, 0, 1 and everything from 28 up are illegal |
| `PinSetup.SearchAndExport` | C_programming/pinSetup/pinSetup.c:39-49 | the flag ends true iff the pin is in the table; on a match the events are the message and then exactly that pin's export events; otherwise there are no events |
| `PinSetup.GpioExport` | C_programming/pinSetup/pinSetup.c:59-88 | returns -1 (Failed) iff the open fails; its events are OpenFailed alone, or OpenOk, a write of the snprintf text, fsync and close |
| `PinSetup.ExportProtocol` | C_programming/pinSetup/pinSetup.c:70-87 | for a legal pin, a successful open is followed by exactly one write of 1 or 2 digits (no sign, no leading zero, below BUFFER_MAX, read back by atoi as the pin), then one fsync, then one close; a failed open produces no write, fsync or close |
| `PinSetup.LegalPinFormat` | C_programming/pinSetup/pinSetup.c:81-83 | a legal pin formats to its own decimal digits; there are 1 or 2 of them, fewer than BUFFER_MAX = 3, so snprintf does not truncate |
| `Conversions.Snprintf` | C_programming/pinSetup/pinSetup.c:81 | returns the length of the full `%d` text, stores as much of it as fits before a terminating NUL, and leaves every cell after the NUL unchanged |
| `Conversions.AtoiFormatInt` | C_programming/pinSetup/pinSetup.c:34 | atoi reads back exactly the integer that `%d` prints, for every integer |
| `Conversions.AtoiNonNumeric` | C_programming/pinSetup/pinSetup.c:34 | an argument with no leading digit (after an optional sign) converts to 0 |
| `Conversions.DecimalValue` | C_programming/pinSetup/pinSetup.c:81 | the decimal digits of n denote n |
| `Conversions.DecimalNoLeadingZero` | C_programming/pinSetup/pinSetup.c:81 | the decimal text of a positive number does not start with '0' |
| `Conversions.DecimalLength` | C_programming/pinSetup/pinSetup.c:81 | the decimal text has 1 character iff n < 10 and 2 iff 10 <= n < 100 |
| `PinSetup.ConvertAndCheck` | C_programming/pinSetup/pinSetup.c:34-55 | stores atoi of the argument in `pins[i]`, then overwrites it with -1 iff it is illegal and changes no other entry; its events are exactly those of `ArgTrace` |
| `PinSetup.Run` | C_programming/pinSetup/pinSetup.c:28-57 | for every argument i from 1 to argc-1, `pins[i]` holds the converted value if it is legal and -1 otherwise; the events are exactly `MainTrace` of the converted arguments |
| `PinSetup.OneOutcome` | C_programming/pinSetup/pinSetup.c:39-55 | each argument gets exactly one outcome: a legal pin gets one message and one export call, message first, and no warning; an illegal one gets one warning and no message, export call, open, write, fsync or close |
| `PinSetup.MainTraceOutcomes` | C_programming/pinSetup/pinSetup.c:33-56 | over a run, the export calls and the messages are, in order, the legal converted arguments with duplicates kept; the warnings are, in order, the illegal ones |
| `PinSetup.OnlyLegalPinsReachTheFile` | C_programming/pinSetup/pinSetup.c:41-45 | every open of the export file in a run is for a legal pin, and every write carries the 1 or 2 decimal digits of a legal pin |
| `PinSetup.DuplicatesExportedTwice` | C_programming/pinSetup/pinSetup.c:33-48 | the arguments "2 2" export pin 2 twice, whatever the opens do |
| `PinSetup.MarkedMeaning` | C_programming/pinSetup/pinSetup.c:52-55 | a final entry is -1 iff the value was illegal, and otherwise it is the value itself; -1 is never a legal pin |
| `PinSetup.NonNumericIsWarned` | C_programming/pinSetup/pinSetup.c:34-55 | a non-numeric argument is marked -1 and its only event is the warning for pin 0 |
| `PinSetup.AsWrittenSizeNotPositive` | C_programming/pinSetup/pinSetup.c:30 | as written, with argc <= 1 the declared size argc-1 of `pins` is not positive |
| `PinSetup.AsWrittenLastStoreOutOfBounds` | C_programming/pinSetup/pinSetup.c:30-34 | as written, the last store `pins[argc-1]` falls outside the declared `int pins[argc-1]` for every invocation with an argument |

## Left out

- The system calls `open`, `write`, `fsync` and `close` on `/sys/class/gpio/export` are not executed. They are events in a trace, and the result of each open is a parameter. The code ignores the result of `write`, and so does the model.
- The exact text of the `fprintf` messages is left out. Each message is an event that carries the pin number. Standard output and standard error are merged into one ordered trace.
- `Conversions.Atoi` does not skip leading white space and does not model overflow, which is undefined behaviour in C.
- `PinSetup.GpioExport` requires the pin's `%d` text to be shorter than BUFFER_MAX, which means -9 to 99. For wider values the C code would write a truncated text or read past the buffer. `main` only passes legal pins (2 to 27), and `ExportProtocol` covers those.
- `PinSetup.Run` requires at least the program name in `argv` (argc >= 1). C also allows argc == 0, for which the declaration `int pins[argc-1]` has a negative size; that case is not modelled. With argc == 1 the C array has size 0, which C does not allow either (see Findings); `Run` allocates one entry and produces an empty trace. `Run` states nothing about `pins[0]`, which the C code never initialises.
- The exit status of `main` is not modelled.
- The defines `IN`, `OUT`, `LOW` and `HIGH` are left out because nothing uses them.
- Unexport, setting a pin's direction and the `--add`/`--remove`/`--input`/`--output` flags are left out because this source has no code for them.

## Findings

| source | as written | input that shows it | evidently intended | confidence | as-written member | corrected member |
|---|---|---|---|---|---|---|
| C_programming/pinSetup/pinSetup.c:30-34 | `int pins[argc-1]` is indexed from 1 to argc-1, so the last store is one past the end and `pins[0]` is never used | `pinSetup 17` (argc = 2): the array has 1 entry, and `pins[1]` is written | an array with one entry per index used, i.e. argc entries (or indices shifted down by one) | not executed; follows from the declaration and the loop bounds | `PinSetup.AsWrittenLastStoreOutOfBounds` | `PinSetup.Run` |
| C_programming/pinSetup/pinSetup.c:30 | `int pins[argc-1]` is declared even when there is no argument | `pinSetup` alone (argc = 1) declares `int pins[0]`; argc = 0 declares a negative size; C requires a variable-length array's size to be greater than zero | declare the array only with a positive size (argc entries in the model) | not executed; follows from the declaration | `PinSetup.AsWrittenSizeNotPositive` | `PinSetup.Run` |
