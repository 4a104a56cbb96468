/** The Raspberry Pi GPIO export tool: every command-line argument is read as a
    pin number, checked against the board's table of GPIO pins, and either
    exported through the sysfs export file or warned about and marked -1.

    The sysfs file and the two output streams are replaced by a trace of
    events; whether opening the export file succeeds is a parameter. */
module PinSetup {
  import opened Conversions

  /** Size of the character buffer the pin number is formatted into. */
  const BufferMax: nat := 3
  /** Number of GPIO pins on the board. */
  const GpioAmnt: nat := 26

  /** The board's GPIO pins, in the order the search visits them. */
  const LegalPins: seq<int> :=
    [2, 3, 4, 14, 15, 17, 18, 27, 22, 23, 24, 10, 9, 25,
     11, 8, 7, 5, 6, 12, 13, 19, 16, 26, 20, 21]

  /** Whether `pin` equals one of the entries of `table` at index `j` or later. */
  predicate InTableFrom(table: seq<int>, pin: int, j: nat)
    decreases |table| - j
  {
    j < |table| && (table[j] == pin || InTableFrom(table, pin, j + 1))
  }

  /** Whether the board has a GPIO pin with this number: the search from the
      start of the table finds it. */
  predicate IsLegal(pin: int) {
    InTableFrom(LegalPins, pin, 0)
  }

  /** One observable step of the tool. */
  datatype Event =
    | ExportedMessage(pin: int)   // "Exported pin N" on standard output
    | IllegalWarning(pin: int)    // "pin N does not exist" on standard error
    | OpenOk(pin: int)            // a GPIOExport call for `pin` opened the export file
    | OpenFailed(pin: int)        // a GPIOExport call for `pin` could not open it, and said so on standard error
    | Write(bytes: seq<char>)     // write() of these bytes to the export file
    | Fsync                       // fsync() of the export file
    | Close                       // close() of the export file

  /** What GPIOExport returns: -1 when the open fails; on the success path the
      function ends without a return statement, so no value is defined. */
  datatype ExportStatus = Failed | NoValue

  /** The events of one GPIOExport call. */
  function ExportTrace(pin: int, openOk: bool): seq<Event> {
    if openOk then [OpenOk(pin), Write(FormatInt(pin)), Fsync, Close]
    else [OpenFailed(pin)]
  }

  /** The events that the loop body of main produces for one converted argument. */
  function ArgTrace(pin: int, openOk: bool): seq<Event> {
    if IsLegal(pin) then [ExportedMessage(pin)] + ExportTrace(pin, openOk)
    else [IllegalWarning(pin)]
  }

  /** What main leaves in `pins` for one converted argument. */
  function Marked(pin: int): int {
    if IsLegal(pin) then pin else -1
  }

  /** The arguments after the program name, each passed through atoi. */
  function Converted(args: seq<string>): (conv: seq<int>)
    ensures |conv| == |args|
  {
    if args == [] then [] else Converted(args[..|args| - 1]) + [Atoi(args[|args| - 1])]
  }

  /** The events of main for converted arguments `conv`, where `oks[k]` says
      whether opening the export file works for argument k. */
  function MainTrace(conv: seq<int>, oks: seq<bool>): seq<Event>
    requires |oks| == |conv|
  {
    if conv == [] then []
    else MainTrace(conv[..|conv| - 1], oks[..|oks| - 1]) + ArgTrace(conv[|conv| - 1], oks[|oks| - 1])
  }

  /** The legal pins of `conv`, in order, duplicates kept. */
  function LegalSubseq(conv: seq<int>): seq<int> {
    if conv == [] then []
    else LegalSubseq(conv[..|conv| - 1]) + (if IsLegal(conv[|conv| - 1]) then [conv[|conv| - 1]] else [])
  }

  /** The illegal values of `conv`, in order. */
  function IllegalSubseq(conv: seq<int>): seq<int> {
    if conv == [] then []
    else IllegalSubseq(conv[..|conv| - 1]) + (if IsLegal(conv[|conv| - 1]) then [] else [conv[|conv| - 1]])
  }

  /** Kinds of event that name a pin. */
  datatype Kind = Message | Warning | ExportCall

  /** The pin `e` names if it is of kind `k`. */
  function PinOf(e: Event, k: Kind): seq<int> {
    match k
    case Message => if e.ExportedMessage? then [e.pin] else []
    case Warning => if e.IllegalWarning? then [e.pin] else []
    case ExportCall => if e.OpenOk? || e.OpenFailed? then [e.pin] else []
  }

  /** The pins named by events of kind `k` in `t`, in order. Every GPIOExport
      call produces exactly one OpenOk or OpenFailed event, so for ExportCall
      these are the arguments of the GPIOExport calls. */
  function Pins(t: seq<Event>, k: Kind): seq<int> {
    if t == [] then [] else PinOf(t[0], k) + Pins(t[1..], k)
  }

  // ---------------------------------------------------------------------
  // The pin table

  /** The table has 26 entries and no two are equal, so the search matches
      at most one index. */
  lemma LegalPinsDistinct()
    ensures |LegalPins| == GpioAmnt
    ensures forall i, j :: 0 <= i < j < |LegalPins| ==> LegalPins[i] != LegalPins[j]
  {
  }

  /** The search from index `j` finds `pin` iff it is among the entries from
      `j` on. */
  lemma {:induction false} InTableFromMeans(table: seq<int>, pin: int, j: nat)
    requires j <= |table|
    ensures InTableFrom(table, pin, j) <==> pin in table[j..]
    decreases |table| - j
  {
    if j < |table| {
      InTableFromMeans(table, pin, j + 1);
      assert table[j..] == [table[j]] + table[j + 1..];
    }
  }

  /** A pin is legal iff it is one of the table's entries. */
  lemma IsLegalMeans(pin: int)
    ensures IsLegal(pin) <==> pin in LegalPins
  {
    InTableFromMeans(LegalPins, pin, 0);
    assert LegalPins[0..] == LegalPins;
  }

  /** The 26 distinct entries are exactly the integers 2 to 27: a pin is legal
      iff it lies in that range. In particular -1 (the mark) and 0 (what atoi
      gives for a non-numeric argument) are illegal. */
  lemma LegalIsRange(pin: int)
    ensures IsLegal(pin) <==> 2 <= pin <= 27
  {
    IsLegalMeans(pin);
    if 2 <= pin <= 27 {
      var idx := [0, 0, 0, 1, 2, 17, 18, 16, 15, 12, 11, 14, 19, 20, 3, 4, 22, 5, 6, 21, 24, 25, 8, 9, 10, 13, 23, 7];
      assert LegalPins[idx[pin]] == pin;
    } else if pin in LegalPins {
      TableInRange(pin);
    }
  }

  /** Every entry of the table lies between 2 and 27. */
  lemma TableInRange(pin: int)
    requires pin in LegalPins
    ensures 2 <= pin <= 27
  {
  }

  /** Formatting a legal pin: its decimal digits, no sign and no leading zero,
      one or two characters, so it fits the buffer with room for the NUL and
      atoi reads the same pin back. */
  lemma LegalPinFormat(pin: int)
    requires IsLegal(pin)
    ensures 2 <= pin <= 27 && FormatInt(pin) == Decimal(pin)
    ensures 1 <= |FormatInt(pin)| < BufferMax
    ensures AllDigits(FormatInt(pin)) && FormatInt(pin)[0] != '0'
    ensures Atoi(FormatInt(pin)) == pin
  {
    LegalIsRange(pin);
    DecimalDigits(pin);
    DecimalLength(pin);
    DecimalNoLeadingZero(pin);
    AtoiFormatInt(pin);
  }

  /** The mark left in `pins`: a legal pin is kept, anything else becomes -1,
      and -1 never stands for a legal pin. */
  lemma MarkedMeaning(pin: int)
    ensures Marked(pin) == -1 <==> !IsLegal(pin)
    ensures Marked(pin) != -1 ==> Marked(pin) == pin
  {
    LegalIsRange(-1);
  }

  /** An argument atoi cannot read as a number converts to 0, which is
      illegal: it is warned about and marked -1. */
  lemma NonNumericIsWarned(arg: string, openOk: bool)
    requires !IsNumeric(arg)
    ensures Marked(Atoi(arg)) == -1
    ensures ArgTrace(Atoi(arg), openOk) == [IllegalWarning(0)]
  {
    AtoiNonNumeric(arg);
    LegalIsRange(0);
  }

  // ---------------------------------------------------------------------
  // One argument

  /** Exactly one outcome per argument: a legal pin gets one message and one
      GPIOExport call and no warning, with the message first and the export
      attempted whatever the open then does; an illegal one gets one warning,
      no message and no export call, hence no open, write, fsync or close. */
  lemma OneOutcome(pin: int, openOk: bool)
    ensures forall k :: Pins(ArgTrace(pin, openOk), k) == if IsLegal(pin) == (k == Warning) then [] else [pin]
    ensures IsLegal(pin) ==>
      ArgTrace(pin, openOk)[0] == ExportedMessage(pin) && ArgTrace(pin, openOk)[1..] == ExportTrace(pin, openOk)
    ensures !IsLegal(pin) ==>
      forall e :: e in ArgTrace(pin, openOk) ==> !(e.OpenOk? || e.Write? || e.Fsync? || e.Close?)
  {
    forall k
      ensures Pins(ArgTrace(pin, openOk), k) == if IsLegal(pin) == (k == Warning) then [] else [pin]
    {
      if IsLegal(pin) {
        ExportTracePins(pin, openOk, k);
        PinsAppend([ExportedMessage(pin)], ExportTrace(pin, openOk), k);
      }
    }
  }

  /** The GPIOExport protocol for a legal pin: when the open succeeds, the
      pin's one or two decimal digits (no sign, no leading zero) are written,
      then the file is synced, then closed, each exactly once; when it fails,
      the failure is reported and nothing is written, synced or closed. */
  lemma ExportProtocol(pin: int, openOk: bool)
    requires IsLegal(pin)
    ensures 2 <= pin
    ensures openOk ==> ExportTrace(pin, openOk) == [OpenOk(pin), Write(Decimal(pin)), Fsync, Close]
    ensures var digits := Decimal(pin);
      1 <= |digits| < BufferMax && AllDigits(digits) && digits[0] != '0' && Atoi(digits) == pin
    ensures !openOk ==> ExportTrace(pin, openOk) == [OpenFailed(pin)]
  {
    LegalPinFormat(pin);
  }

  /** A GPIOExport call names its pin in exactly one event, OpenOk or OpenFailed. */
  lemma ExportTracePins(pin: int, openOk: bool, k: Kind)
    ensures Pins(ExportTrace(pin, openOk), k) == if k == ExportCall then [pin] else []
  {
    var t := ExportTrace(pin, openOk);
    if openOk {
      assert Pins(t[3..], k) == [] by { assert t[3..][1..] == []; }
      assert Pins(t[2..], k) == [] by { assert t[2..][1..] == t[3..]; }
      assert Pins(t[1..], k) == [] by { assert t[1..][1..] == t[2..]; }
    } else {
      assert t[1..] == [];
    }
  }

  // ---------------------------------------------------------------------
  // The whole run

  lemma {:induction false} PinsAppend(a: seq<Event>, b: seq<Event>, k: Kind)
    ensures Pins(a + b, k) == Pins(a, k) + Pins(b, k)
  {
    if a == [] {
      assert a + b == b;
    } else {
      assert (a + b)[1..] == a[1..] + b;
      PinsAppend(a[1..], b, k);
    }
  }

  /** What main reports for pins of kind `k`: the legal converted arguments
      for messages and export calls, the illegal ones for warnings. */
  function Expected(conv: seq<int>, k: Kind): seq<int> {
    if k == Warning then IllegalSubseq(conv) else LegalSubseq(conv)
  }

  /** The GPIOExport calls are, in order, exactly the legal converted
      arguments (duplicates are exported again), and so are the messages; the
      warnings are, in order, exactly the illegal ones. */
  lemma {:induction false} MainTraceOutcomes(conv: seq<int>, oks: seq<bool>, k: Kind)
    requires |oks| == |conv|
    ensures Pins(MainTrace(conv, oks), k) == Expected(conv, k)
  {
    if conv != [] {
      var n := |conv|;
      MainTraceOutcomes(conv[..n - 1], oks[..n - 1], k);
      OneOutcome(conv[n - 1], oks[n - 1]);
      PinsAppend(MainTrace(conv[..n - 1], oks[..n - 1]), ArgTrace(conv[n - 1], oks[n - 1]), k);
    }
  }

  /** Nothing is ever opened or written for an illegal pin: every export call
      in the trace is for a legal pin, and every write carries the one or two
      decimal digits of a legal pin. */
  lemma {:induction false} OnlyLegalPinsReachTheFile(conv: seq<int>, oks: seq<bool>)
    requires |oks| == |conv|
    ensures forall e :: e in MainTrace(conv, oks) && (e.OpenOk? || e.OpenFailed?) ==> IsLegal(e.pin)
    ensures forall e :: e in MainTrace(conv, oks) && e.Write? ==>
      exists pin: nat :: IsLegal(pin) && e.bytes == Decimal(pin) && 1 <= |e.bytes| < BufferMax
  {
    if conv != [] {
      var n := |conv|;
      OnlyLegalPinsReachTheFile(conv[..n - 1], oks[..n - 1]);
      var p := conv[n - 1];
      if IsLegal(p) {
        LegalPinFormat(p);
      }
    }
  }

  /** Duplicates are not merged: the pin is exported once per occurrence. */
  lemma DuplicatesExportedTwice(ok1: bool, ok2: bool)
    ensures Pins(MainTrace([2, 2], [ok1, ok2]), ExportCall) == [2, 2]
  {
    MainTraceOutcomes([2, 2], [ok1, ok2], ExportCall);
    LegalIsRange(2);
    assert [2, 2][..1] == [2];
    assert [2][..0] == [];
  }

  // ---------------------------------------------------------------------
  // The operations

  /** GPIOExport: open the export file; if that fails, report it and return
      -1 without writing; otherwise format the pin into a BufferMax-character
      buffer, write the formatted characters, fsync and close, in that order.
      Only pins whose decimal text fits the buffer are passed by main. */
  method GpioExport(pin: int, openOk: bool) returns (status: ExportStatus, events: seq<Event>)
    requires |FormatInt(pin)| < BufferMax
    ensures status == Failed <==> !openOk
    ensures events == ExportTrace(pin, openOk)
  {
    if !openOk {
      events := [OpenFailed(pin)];
      return Failed, events;
    }
    events := [OpenOk(pin)];
    var buffer := new char[BufferMax];
    var bytesToWrite := Snprintf(buffer, pin);
    assert buffer[..bytesToWrite] == FormatInt(pin);
    events := events + [Write(buffer[..bytesToWrite])];
    events := events + [Fsync];
    events := events + [Close];
    status := NoValue;
  }

  /** main: `argv[0]` is the program name; each later argument is converted
      with atoi into `pins[i]` and searched for in the table. A match prints
      the message and exports the pin, then leaves the search; no match warns
      and marks `pins[i]` with -1. `openOk[i - 1]` is whether opening the
      export file works during argument i. */
  method Run(argv: seq<string>, openOk: seq<bool>) returns (pins: array<int>, trace: seq<Event>)
    requires |argv| >= 1 && |openOk| == |argv| - 1
    ensures pins.Length == |argv|
    ensures forall i :: 1 <= i < |argv| ==> pins[i] == Marked(Atoi(argv[i]))
    ensures trace == MainTrace(Converted(argv[1..]), openOk)
  {
    ghost var conv := Converted(argv[1..]);
    ConvertedAt(argv[1..]);
    pins := new int[|argv|];
    trace := [];
    var i := 1;
    while i < |argv|
      invariant 1 <= i <= |argv|
      invariant forall k :: 1 <= k < i ==> pins[k] == Marked(conv[k - 1])
      invariant trace == MainTrace(conv[..i - 1], openOk[..i - 1])
    {
      var events := ConvertAndCheck(pins, i, argv[i], openOk[i - 1]);
      trace := trace + events;
      StepTrace(conv, openOk, i);
      i := i + 1;
    }
    assert conv[..i - 1] == conv && openOk[..i - 1] == openOk;
  }

  /** The body of main's loop for argument i: store atoi of the argument in
      `pins[i]`, search the table (exporting on a match), and if there was no
      match, warn and overwrite `pins[i]` with -1. */
  method ConvertAndCheck(pins: array<int>, i: nat, arg: string, openOk: bool) returns (events: seq<Event>)
    requires i < pins.Length
    modifies pins
    ensures pins[..] == old(pins[..])[i := Marked(Atoi(arg))]
    ensures events == ArgTrace(Atoi(arg), openOk)
  {
    pins[i] := Atoi(arg);
    var legalityCheck;
    legalityCheck, events := SearchAndExport(pins[i], openOk);
    if !legalityCheck {
      events := events + [IllegalWarning(pins[i])];
      pins[i] := -1;
    }
  }

  /** The search loop of main for one converted argument: walk the table;
      at the first entry equal to `pin`, print the message, export the pin
      and stop. `legalityCheck` tells whether a match was found; the events
      are the message and the export's. */
  method SearchAndExport(pin: int, openOk: bool) returns (legalityCheck: bool, events: seq<Event>)
    ensures legalityCheck <==> IsLegal(pin)
    ensures events == if legalityCheck then [ExportedMessage(pin)] + ExportTrace(pin, openOk) else []
  {
    legalityCheck := false;
    events := [];
    var j := 0;
    while j < GpioAmnt
      invariant 0 <= j <= GpioAmnt
      invariant !legalityCheck && events == []
      invariant IsLegal(pin) == InTableFrom(LegalPins, pin, j)
    {
      if pin == LegalPins[j] {
        events := events + [ExportedMessage(pin)];
        LegalPinFormat(pin);
        var _, exportEvents := GpioExport(pin, openOk);
        events := events + exportEvents;
        legalityCheck := true;
        break;
      }
      j := j + 1;
    }
  }

  /** One more argument extends the trace of main by that argument's events. */
  lemma StepTrace(conv: seq<int>, oks: seq<bool>, i: nat)
    requires 1 <= i <= |conv| && |oks| == |conv|
    ensures MainTrace(conv[..i], oks[..i])
         == MainTrace(conv[..i - 1], oks[..i - 1]) + ArgTrace(conv[i - 1], oks[i - 1])
  {
    assert conv[..i][..i - 1] == conv[..i - 1];
    assert oks[..i][..i - 1] == oks[..i - 1];
  }

  /** Converting the arguments one by one: entry k is atoi of argument k. */
  lemma {:induction false} ConvertedAt(args: seq<string>)
    ensures forall k :: 0 <= k < |args| ==> Converted(args)[k] == Atoi(args[k])
  {
    if args != [] {
      ConvertedAt(args[..|args| - 1]);
    }
  }

  // ---------------------------------------------------------------------
  // The size of `pins`, as written

  /** main declares `int pins[argc-1]` but stores into pins[1] .. pins[argc-1]. */
  function AsWrittenPinsLength(argc: int): int {
    argc - 1
  }

  /** The last index main stores into, argc - 1, is outside the array it
      declared, for every invocation with at least one argument; Run above
      uses argc entries. */
  lemma AsWrittenLastStoreOutOfBounds(argc: int)
    requires argc >= 2
    ensures !(argc - 1 < AsWrittenPinsLength(argc))
  {
  }

  /** With no argument (argc == 1) the declared array has size 0, and with
      argc == 0 a negative size; C requires a variable-length array's size to
      be greater than zero. Run above allocates argc >= 1 entries. */
  lemma AsWrittenSizeNotPositive(argc: int)
    requires argc <= 1
    ensures AsWrittenPinsLength(argc) <= 0
  {
  }
}
