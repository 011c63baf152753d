/** GPIO lines as the sysfs interface exposes them: a Pin is a handle on
    the directory /sys/class/gpio/gpioN, whose `direction` and `value`
    files are read and written as text. The file system is the abstract
    state `Sysfs`; the pure parts (decoding a direction, parsing a value,
    classifying the kernel version, the board's pin table) are functions. */
module Gpio {
  import opened Basics

  datatype IoDirection = Input | Output

  /** A Ruby symbol, by its name (`:output` is "output"). */
  type Symbol = string

  datatype PinError =
    | NotAvailable                          // value and value= on a line that is not exported
    | NoSuchFile                            // a file under a directory that does not exist
    | UnexpectedDirection(text: string)     // the direction file held neither "in" nor "out"
    | UnexpectedDirectionSymbol(d: Symbol)  // direction= was given neither :input nor :output
    | WriteRejected                         // the kernel refused an export or unexport request

  /** One write to a line's value file: the line and the integer written. */
  datatype PinWrite = PinWrite(gpio: nat, value: int)

  /** The part of /sys/class/gpio the model sees. */
  class Sysfs {
    /** Lines whose directory /sys/class/gpio/gpioN exists. */
    var exported: set<nat>
    /** Text of gpioN/direction and gpioN/value for every exported line. */
    var directionText: map<nat, string>
    var valueText: map<nat, string>
    /** Every write to a value file, oldest first. */
    var valueWrites: seq<PinWrite>
    /** What the kernel puts in the files of a freshly exported line. */
    const initialDirection: string
    const initialValue: string

    ghost predicate Valid()
      reads this
    {
      directionText.Keys == exported && valueText.Keys == exported
    }

    constructor (initialDirection: string, initialValue: string)
      ensures Valid() && exported == {} && valueWrites == []
      ensures this.initialDirection == initialDirection && this.initialValue == initialValue
    {
      this.initialDirection := initialDirection;
      this.initialValue := initialValue;
      exported := {};
      directionText := map[];
      valueText := map[];
      valueWrites := [];
    }
  }

  // ---------------------------------------------------------------------
  // Text helpers: Ruby's String#strip, decimal digits, Integer#to_s

  /** The characters String#strip removes: NUL, tab, line feed, vertical tab,
      form feed, carriage return and space. */
  predicate IsSpace(c: char)
  {
    c == ' ' || c == '\0' || 9 <= c as int <= 13
  }

  function TrimStart(s: string): (r: string)
    ensures |r| <= |s| && r == s[|s| - |r|..]
    ensures forall k :: 0 <= k < |s| - |r| ==> IsSpace(s[k])
    ensures r == [] || !IsSpace(r[0])
  {
    if s != [] && IsSpace(s[0]) then TrimStart(s[1..]) else s
  }

  function TrimEnd(s: string): (r: string)
    ensures |r| <= |s| && r == s[..|r|]
    ensures forall k :: |r| <= k < |s| ==> IsSpace(s[k])
    ensures r == [] || !IsSpace(r[|r| - 1])
  {
    if s != [] && IsSpace(s[|s| - 1]) then TrimEnd(s[..|s| - 1]) else s
  }

  /** String#strip: the text without its leading and trailing white space. */
  function Strip(s: string): (r: string)
    ensures StripsTo(s, r)
    ensures r == [] || (!IsSpace(r[0]) && !IsSpace(r[|r| - 1]))
  {
    StripIsPiece(s);
    TrimEnd(TrimStart(s))
  }

  /** Trimming the start and then the end removes white space only. */
  lemma {:induction false} StripIsPiece(s: string)
    ensures StripsTo(s, TrimEnd(TrimStart(s)))
  {
    var t := TrimStart(s);
    PieceOfSuffix(s, |s| - |t|, t, TrimEnd(t));
  }

  /** r is s with only white space removed at its two ends. */
  ghost predicate StripsTo(s: string, r: string)
  {
    exists i, j :: SpaceAround(s, i, j, r)
  }

  /** s is r with only white space before it (s[..i]) and after it (s[j..]). */
  ghost predicate SpaceAround(s: string, i: int, j: int, r: string)
  {
    0 <= i <= j <= |s| && r == s[i..j] &&
    (forall k :: 0 <= k < i || j <= k < |s| ==> IsSpace(s[k]))
  }

  /** A prefix r of the suffix t = s[i..], with white space in s before i
      and in t after r, is s[i..i + |r|] with white space around it. */
  lemma PieceOfSuffix(s: string, i: nat, t: string, r: string)
    requires i <= |s| && t == s[i..] && |r| <= |t| && r == t[..|r|]
    requires forall k :: 0 <= k < i ==> IsSpace(s[k])
    requires forall k :: |r| <= k < |t| ==> IsSpace(t[k])
    ensures SpaceAround(s, i, i + |r|, r)
  {
    forall k | i + |r| <= k < |s| ensures IsSpace(s[k]) {
      assert s[k] == t[k - i];
    }
  }

  predicate IsDigit(c: char)
  {
    '0' <= c <= '9'
  }

  predicate AllDigits(s: string)
  {
    forall k :: 0 <= k < |s| ==> IsDigit(s[k])
  }

  function DigitValue(c: char): (d: nat)
    requires IsDigit(c)
    ensures d < 10
  {
    c as int - '0' as int
  }

  function DigitChar(d: nat): (c: char)
    requires d < 10
    ensures IsDigit(c) && DigitValue(c) == d
  {
    ('0' as int + d) as char
  }

  /** The number a run of decimal digits denotes (String#to_i on digits). */
  function DigitsValue(s: string): (v: nat)
    requires AllDigits(s)
    ensures v < Pow(10, |s|)
  {
    if s == [] then 0 else DigitsValue(s[..|s| - 1]) * 10 + DigitValue(s[|s| - 1])
  }

  /** Integer#to_s on a non-negative number: its shortest decimal digits. */
  function NatToString(n: nat): (s: string)
    ensures |s| > 0 && AllDigits(s) && DigitsValue(s) == n
    ensures |s| > 1 ==> s[0] != '0'
  {
    if n < 10 then [DigitChar(n)]
    else
      var prefix := NatToString(n / 10);
      var s := prefix + [DigitChar(n % 10)];
      assert s[..|s| - 1] == prefix;
      s
  }

  /** Integer#to_s: a minus sign before the digits of a negative number. */
  function IntToString(v: int): (r: string)
    ensures |r| > 0 && (r[0] == '-' <==> v < 0)
    ensures r[if v < 0 then 1 else 0..] == NatToString(if v < 0 then -v else v)
  {
    if v < 0 then "-" + NatToString(-v) else NatToString(v)
  }

  // ---------------------------------------------------------------------
  // Decoding the files

  /** The text direction= writes for each direction. */
  function DirectionText(d: IoDirection): (r: string)
    ensures r == "in" || r == "out"
    ensures r == "in" <==> d == Input
  {
    match d
    case Input => "in"
    case Output => "out"
  }

  /** The direction the setter accepts for a symbol: only :input and :output. */
  function DirectionOfSymbol(d: Symbol): (r: Option<IoDirection>)
    ensures r == Some(Input) <==> d == "input"
    ensures r == Some(Output) <==> d == "output"
    ensures r.None? <==> d != "input" && d != "output"
  {
    if d == "input" then Some(Input)
    else if d == "output" then Some(Output)
    else None
  }

  /** The direction reader: the stripped file text must be "in" or "out". */
  function DecodeDirection(text: string): (r: Result<IoDirection, PinError>)
    ensures r == Ok(Input) <==> Strip(text) == "in"
    ensures r == Ok(Output) <==> Strip(text) == "out"
    ensures r.Err? ==> r == Err(UnexpectedDirection(Strip(text)))
  {
    var v := Strip(text);
    if v == "in" then Ok(Input)
    else if v == "out" then Ok(Output)
    else Err(UnexpectedDirection(v))
  }

  /** Reading back the text written for a direction gives that direction,
      also with the line feed sysfs appends when the file is read. */
  lemma {:induction false} DirectionRoundTrip(d: IoDirection)
    ensures DecodeDirection(DirectionText(d)) == Ok(d)
    ensures DecodeDirection(DirectionText(d) + "\n") == Ok(d)
  {
    var t := DirectionText(d);
    assert forall k :: 0 <= k < |t| ==> !IsSpace(t[k]);
    StripWithoutSpaces(t);
  }

  /** A text with no white space in it strips to itself, with or without a
      trailing line feed. */
  lemma {:induction false} StripWithoutSpaces(t: string)
    requires t != [] && forall k :: 0 <= k < |t| ==> !IsSpace(t[k])
    ensures Strip(t) == t && Strip(t + "\n") == t
  {
    var u := t + "\n";
    assert !IsSpace(t[0]) && !IsSpace(u[0]);
    assert TrimStart(t) == t && TrimStart(u) == u;
    assert u[..|u| - 1] == t;
    assert TrimEnd(u) == TrimEnd(t) == t;
  }

  /** The leftmost maximal run of digits in s at or after `from`, as a
      half-open index range: the match of /([0-9]+)/ in Ruby. */
  function DigitRun(s: string, from: nat): (r: Option<(nat, nat)>)
    requires from <= |s|
    decreases |s| - from
    ensures r.None? <==> forall k :: from <= k < |s| ==> !IsDigit(s[k])
    ensures r.Some? ==> from <= r.value.0 < r.value.1 <= |s|
    ensures r.Some? ==> forall k :: from <= k < r.value.0 ==> !IsDigit(s[k])
    ensures r.Some? ==> forall k :: r.value.0 <= k < r.value.1 ==> IsDigit(s[k])
    ensures r.Some? ==> r.value.1 == |s| || !IsDigit(s[r.value.1])
  {
    if from == |s| then None
    else if IsDigit(s[from]) then Some((from, RunEnd(s, from)))
    else DigitRun(s, from + 1)
  }

  /** The end of the run of digits that starts at i. */
  function RunEnd(s: string, i: nat): (j: nat)
    requires i <= |s|
    decreases |s| - i
    ensures i <= j <= |s|
    ensures forall k :: i <= k < j ==> IsDigit(s[k])
    ensures j == |s| || !IsDigit(s[j])
  {
    if i < |s| && IsDigit(s[i]) then RunEnd(s, i + 1) else i
  }

  /** The value reader's parse: the first run of digits as a number, or 0
      when the text holds no digit. */
  function ParseValue(text: string): (v: nat)
    ensures (forall k :: 0 <= k < |text| ==> !IsDigit(text[k])) ==> v == 0
  {
    match DigitRun(text, 0)
    case None => 0
    case Some((i, j)) => DigitsValue(text[i..j])
  }

  /** What value= writes, value reads back: the number, without its sign. */
  lemma {:induction false} ValueRoundTrip(v: int)
    ensures ParseValue(IntToString(v)) == if v < 0 then -v else v
    ensures ParseValue(IntToString(v) + "\n") == if v < 0 then -v else v
  {
    var n := if v < 0 then -v else v;
    var digits := NatToString(n);
    var start := if v < 0 then 1 else 0;
    var t := IntToString(v);
    assert t == if v < 0 then "-" + digits else digits;
    assert t[start..] == digits;
    FirstRunIs(t, start, |t|);
    assert t[start..|t|] == digits;
    var u := t + "\n";
    assert u[|t|] == '\n';
    FirstRunIs(u, start, |t|);
    assert u[start..|t|] == digits;
  }

  /** The first run of digits is [start, end) when nothing before start is a
      digit, everything in [start, end) is, and the run cannot be extended. */
  lemma {:induction false} FirstRunIs(s: string, start: nat, end: nat)
    requires start < end <= |s|
    requires forall k :: 0 <= k < start ==> !IsDigit(s[k])
    requires forall k :: start <= k < end ==> IsDigit(s[k])
    requires end == |s| || !IsDigit(s[end])
    ensures DigitRun(s, 0) == Some((start, end))
  {
    var r := DigitRun(s, 0);
    assert IsDigit(s[start]);
    var (i, j) := r.value;
    assert IsDigit(s[i]);
    assert i == start;
    assert end < |s| ==> !IsDigit(s[end]);
    assert j < |s| ==> !IsDigit(s[j]);
    assert j == end;
  }

  // ---------------------------------------------------------------------
  // The line handle

  class Pin {
    const gpioNumber: nat
    const sys: Sysfs

    constructor (gpioNumber: nat, sys: Sysfs)
      ensures this.gpioNumber == gpioNumber && this.sys == sys
    {
      this.gpioNumber := gpioNumber;
      this.sys := sys;
    }

    /** available?: the line's directory exists. */
    predicate Available()
      reads sys
      ensures sys.Valid() ==> (Available() <==> gpioNumber in sys.valueText)
    {
      gpioNumber in sys.exported
    }

    /** export: asks the kernel to create the line's directory; the kernel
        refuses a line that is already exported. */
    method Export() returns (r: Outcome<PinError>)
      requires sys.Valid()
      modifies sys
      ensures sys.Valid() && sys.valueWrites == old(sys.valueWrites)
      ensures old(Available()) ==> r == Fail(WriteRejected) && unchanged(sys)
      ensures !old(Available()) ==> r == Pass && Available()
      ensures !old(Available()) ==> sys.exported == old(sys.exported) + {gpioNumber}
      ensures !old(Available()) ==>
        sys.directionText == old(sys.directionText)[gpioNumber := sys.initialDirection] &&
        sys.valueText == old(sys.valueText)[gpioNumber := sys.initialValue]
    {
      if Available() {
        return Fail(WriteRejected);
      }
      sys.exported := sys.exported + {gpioNumber};
      sys.directionText := sys.directionText[gpioNumber := sys.initialDirection];
      sys.valueText := sys.valueText[gpioNumber := sys.initialValue];
      r := Pass;
    }

    /** unexport: asks the kernel to remove the line's directory; the kernel
        refuses a line that is not exported. */
    method Unexport() returns (r: Outcome<PinError>)
      requires sys.Valid()
      modifies sys
      ensures sys.Valid() && sys.valueWrites == old(sys.valueWrites)
      ensures !old(Available()) ==> r == Fail(WriteRejected) && unchanged(sys)
      ensures old(Available()) ==> r == Pass && !Available()
      ensures old(Available()) ==> sys.exported == old(sys.exported) - {gpioNumber}
      ensures old(Available()) ==>
        sys.directionText == old(sys.directionText) - {gpioNumber} &&
        sys.valueText == old(sys.valueText) - {gpioNumber}
    {
      if !Available() {
        return Fail(WriteRejected);
      }
      sys.exported := sys.exported - {gpioNumber};
      sys.directionText := sys.directionText - {gpioNumber};
      sys.valueText := sys.valueText - {gpioNumber};
      r := Pass;
    }

    /** direction: reads and decodes the direction file; reading a file of a
        line that is not exported fails. */
    function Direction(): (r: Result<IoDirection, PinError>)
      requires sys.Valid()
      reads sys
      ensures !Available() ==> r == Err(NoSuchFile)
      ensures Available() ==> r == DecodeDirection(sys.directionText[gpioNumber])
    {
      if !Available() then Err(NoSuchFile) else DecodeDirection(sys.directionText[gpioNumber])
    }

    /** direction=: maps :input/:output to "in"/"out" before touching any file,
        then writes the direction file. */
    method SetDirection(d: Symbol) returns (r: Outcome<PinError>)
      requires sys.Valid()
      modifies sys
      ensures sys.Valid() && sys.exported == old(sys.exported)
      ensures sys.valueText == old(sys.valueText) && sys.valueWrites == old(sys.valueWrites)
      ensures DirectionOfSymbol(d).None? ==> r == Fail(UnexpectedDirectionSymbol(d)) && unchanged(sys)
      ensures DirectionOfSymbol(d).Some? && !old(Available()) ==> r == Fail(NoSuchFile) && unchanged(sys)
      ensures DirectionOfSymbol(d).Some? && old(Available()) ==>
        r == Pass &&
        sys.directionText == old(sys.directionText)[gpioNumber := DirectionText(DirectionOfSymbol(d).value)] &&
        Direction() == Ok(DirectionOfSymbol(d).value)
    {
      var text: string;
      if d == "input" {
        text := "in";
      } else if d == "output" {
        text := "out";
      } else {
        return Fail(UnexpectedDirectionSymbol(d));
      }
      if !Available() {
        return Fail(NoSuchFile);
      }
      sys.directionText := sys.directionText[gpioNumber := text];
      DirectionRoundTrip(DirectionOfSymbol(d).value);
      r := Pass;
    }

    /** value: refuses a line that is not available before reading anything,
        then parses the value file. */
    function Value(): (r: Result<nat, PinError>)
      requires sys.Valid()
      reads sys
      ensures !Available() ==> r == Err(NotAvailable)
      ensures Available() ==> r == Ok(ParseValue(sys.valueText[gpioNumber]))
    {
      if !Available() then Err(NotAvailable) else Ok(ParseValue(sys.valueText[gpioNumber]))
    }

    /** value=: refuses a line that is not available before writing anything,
        then writes the decimal text of v. */
    method SetValue(v: int) returns (r: Outcome<PinError>)
      requires sys.Valid()
      modifies sys
      ensures sys.Valid() && sys.exported == old(sys.exported)
      ensures sys.directionText == old(sys.directionText)
      ensures !old(Available()) ==> r == Fail(NotAvailable) && unchanged(sys)
      ensures old(Available()) ==>
        r == Pass &&
        sys.valueText == old(sys.valueText)[gpioNumber := IntToString(v)] &&
        sys.valueWrites == old(sys.valueWrites) + [PinWrite(gpioNumber, v)] &&
        Value() == Ok(if v < 0 then -v else v)
    {
      if !Available() {
        return Fail(NotAvailable);
      }
      sys.valueText := sys.valueText[gpioNumber := IntToString(v)];
      sys.valueWrites := sys.valueWrites + [PinWrite(gpioNumber, v)];
      ValueRoundTrip(v);
      r := Pass;
    }
  }

  // ---------------------------------------------------------------------
  // Kernel version and the board's pin table

  datatype KernelVersion = V4_3 | V4_4

  const DEFAULT_VERSION: KernelVersion := V4_4

  // What reading /proc/version and matching it against the NTC kernel
  // pattern `Linux version ([0-9]+)\.([0-9]+).+-ntc.*` gave: the file could
  // not be read, the pattern did not match, or the two captured numbers.
  datatype ProcVersion = Unreadable | Unmatched | Matched(major: string, minor: string)

  datatype VersionError = ReadFailed | ParseFailed | Unrecognized(major: string, minor: string)

  /** The body of chip_version's begin block: every way it raises. */
  function ParseVersion(p: ProcVersion): (r: Result<KernelVersion, VersionError>)
    ensures r == Ok(V4_3) <==> p == Matched("4", "3")
    ensures r == Ok(V4_4) <==> p == Matched("4", "4")
  {
    match p
    case Unreadable => Err(ReadFailed)
    case Unmatched => Err(ParseFailed)
    case Matched(major, minor) =>
      if major == "4" && minor == "3" then Ok(V4_3)
      else if major == "4" && minor == "4" then Ok(V4_4)
      else Err(Unrecognized(major, minor))
  }

  /** chip_version: every error is rescued into the default version. */
  function ChipVersion(p: ProcVersion): (v: KernelVersion)
    ensures v == V4_3 <==> p == Matched("4", "3")
  {
    match ParseVersion(p)
    case Ok(version) => version
    case Err(_) => DEFAULT_VERSION
  }

  const CSI_GPIOS: seq<nat> := [132, 133, 134, 135, 136, 137, 138, 139]
  const XIO_GPIOS_V4_3: seq<nat> := [408, 409, 410, 411, 412, 413, 414, 415]
  const XIO_GPIOS_V4_4: seq<nat> := [1016, 1017, 1018, 1019, 1020, 1021, 1022, 1023]

  function XioGpios(v: KernelVersion): (g: seq<nat>)
    ensures |g| == 8
  {
    match v
    case V4_3 => XIO_GPIOS_V4_3
    case V4_4 => XIO_GPIOS_V4_4
  }

  /** XIOi is line 408 + i on a 4.3 kernel and 1016 + i on a 4.4 kernel;
      CSIi is line 132 + i on both. */
  lemma {:induction false} GpioListsAt(v: KernelVersion, i: nat)
    requires i < 8
    ensures CSI_GPIOS[i] == 132 + i
    ensures XioGpios(v)[i] == (if v == V4_3 then 408 else 1016) + i
  {
    if i == 0 {} else if i == 1 {} else if i == 2 {} else if i == 3 {}
    else if i == 4 {} else if i == 5 {} else if i == 6 {} else {}
  }

  /** The symbol "#{prefix}#{index}". */
  function PinName(prefix: string, index: nat): string
  {
    prefix + NatToString(index)
  }

  /** The board table as a rule on names: CSIi is line 132 + i, XIOi is
      line 408 + i on a 4.3 kernel and 1016 + i on a 4.4 kernel, for i in 0..7. */
  function BoardGpio(v: KernelVersion, name: string): Option<nat>
  {
    if |name| == 4 && IsDigit(name[3]) && DigitValue(name[3]) < 8 then
      if name[..3] == "CSI" then Some(132 + DigitValue(name[3]))
      else if name[..3] == "XIO" then Some((if v == V4_3 then 408 else 1016) + DigitValue(name[3]))
      else None
    else None
  }

  lemma {:induction false} PinNameShape(prefix: string, i: nat)
    requires |prefix| == 3 && i < 10
    ensures PinName(prefix, i) == prefix + [DigitChar(i)]
    ensures |PinName(prefix, i)| == 4 && PinName(prefix, i)[..3] == prefix
    ensures PinName(prefix, i)[3] == DigitChar(i)
  {
    assert NatToString(i) == [DigitChar(i)];
    assert (prefix + [DigitChar(i)])[..3] == prefix;
  }

  /** Names built from three-letter prefixes and single digits are equal
      only when prefix and index are. */
  lemma {:induction false} PinNameInjective(p1: string, i: nat, p2: string, j: nat)
    requires |p1| == 3 && |p2| == 3 && i < 10 && j < 10
    ensures PinName(p1, i) == PinName(p2, j) <==> p1 == p2 && i == j
  {
    PinNameShape(p1, i);
    PinNameShape(p2, j);
    if PinName(p1, i) == PinName(p2, j) {
      assert DigitValue(DigitChar(i)) == DigitValue(DigitChar(j));
    }
  }

  /** The names prefix0 .. prefix(n-1). */
  ghost function NameSet(prefix: string, n: nat): set<string>
  {
    set i | 0 <= i < n :: PinName(prefix, i)
  }

  lemma {:induction false} NameSetGrow(prefix: string, n: nat)
    ensures NameSet(prefix, n + 1) == NameSet(prefix, n) + {PinName(prefix, n)}
  {
    assert PinName(prefix, n) in NameSet(prefix, n + 1);
  }

  lemma {:induction false} NameSetExcludes(prefix: string, n: nat, other: string, m: nat)
    requires |prefix| == 3 && |other| == 3 && n <= 10 && m < 10
    requires prefix != other || m >= n
    ensures PinName(other, m) !in NameSet(prefix, n)
  {
    forall i | 0 <= i < n ensures PinName(prefix, i) != PinName(other, m) {
      PinNameInjective(prefix, i, other, m);
    }
  }

  /** Every name the rule knows is some CSIi or XIOi with i in 0..7. */
  lemma {:induction false} BoardGpioNames(v: KernelVersion, name: string)
    ensures BoardGpio(v, name).Some? <==> name in NameSet("CSI", 8) + NameSet("XIO", 8)
  {
    if BoardGpio(v, name).Some? {
      var i := DigitValue(name[3]);
      PinNameShape(name[..3], i);
      assert name == name[..3] + [name[3]];
      assert name == PinName("CSI", i) || name == PinName("XIO", i);
    } else {
      forall i | 0 <= i < 8
        ensures name != PinName("CSI", i) && name != PinName("XIO", i)
      {
        PinNameShape("CSI", i);
        PinNameShape("XIO", i);
      }
    }
  }

  /** The board table as a map from name to line number. */
  ghost function BoardTable(v: KernelVersion): map<string, nat>
  {
    map name | name in NameSet("CSI", 8) + NameSet("XIO", 8) && BoardGpio(v, name).Some? :: BoardGpio(v, name).value
  }

  /** The map holds exactly the names the rule knows, with the rule's lines. */
  lemma BoardTableRule(v: KernelVersion)
    ensures forall name :: name in BoardTable(v) <==> BoardGpio(v, name).Some?
    ensures forall name :: name in BoardTable(v) ==> BoardTable(v)[name] == BoardGpio(v, name).value
  {
    forall name ensures name in BoardTable(v) <==> BoardGpio(v, name).Some? {
      BoardGpioNames(v, name);
    }
  }

  lemma {:induction false} BoardGpioAt(v: KernelVersion, i: nat)
    requires i < 8
    ensures BoardGpio(v, PinName("CSI", i)) == Some(CSI_GPIOS[i])
    ensures BoardGpio(v, PinName("XIO", i)) == Some(XioGpios(v)[i])
  {
    PinNameShape("CSI", i);
    PinNameShape("XIO", i);
    GpioListsAt(v, i);
  }

  /** The table get_pins builds, stated per index, agrees with the rule on
      names. */
  lemma {:induction false} PinTableMatchesRule(v: KernelVersion, pins: map<string, Pin>)
    requires pins.Keys == NameSet("CSI", 8) + NameSet("XIO", 8)
    requires forall i :: 0 <= i < 8 ==> pins[PinName("CSI", i)].gpioNumber == CSI_GPIOS[i]
    requires forall i :: 0 <= i < 8 ==> pins[PinName("XIO", i)].gpioNumber == XioGpios(v)[i]
    ensures forall name :: name in pins <==> BoardGpio(v, name).Some?
    ensures forall name :: name in pins ==> pins[name].gpioNumber == BoardGpio(v, name).value
  {
    forall name ensures name in pins <==> BoardGpio(v, name).Some? {
      BoardGpioNames(v, name);
    }
    forall name | name in pins ensures pins[name].gpioNumber == BoardGpio(v, name).value {
      var i :| 0 <= i < 8 && (name == PinName("CSI", i) || name == PinName("XIO", i));
      BoardGpioAt(v, i);
    }
  }

  /** The names prefix0 .. prefix(n-1) are n distinct names. */
  lemma {:induction false} NameSetSize(prefix: string, n: nat)
    requires |prefix| == 3 && n <= 10
    ensures |NameSet(prefix, n)| == n
  {
    if n > 0 {
      NameSetSize(prefix, n - 1);
      NameSetGrow(prefix, n - 1);
      NameSetExcludes(prefix, n - 1, prefix, n - 1);
    }
  }

  /** The CSI and XIO names are sixteen distinct names. */
  lemma {:induction false} BoardNameCount()
    ensures NameSet("CSI", 8) !! NameSet("XIO", 8)
    ensures |NameSet("CSI", 8) + NameSet("XIO", 8)| == 16
  {
    forall i | 0 <= i < 8 ensures PinName("CSI", i) !in NameSet("XIO", 8) {
      NameSetExcludes("XIO", 8, "CSI", i);
    }
    NameSetSize("CSI", 8);
    NameSetSize("XIO", 8);
  }

  /** One each_with_index pass of get_pins: a new handle for gpios[i]
      under the name prefix<i>, added to pins. */
  method AddLines(pins: map<string, Pin>, prefix: string, gpios: seq<nat>, sys: Sysfs)
    returns (r: map<string, Pin>)
    requires |prefix| == 3 && |gpios| <= 10
    ensures r.Keys == pins.Keys + NameSet(prefix, |gpios|)
    ensures forall name :: name in pins && name !in NameSet(prefix, |gpios|) ==> r[name] == pins[name]
    ensures forall i :: 0 <= i < |gpios| ==>
      r[PinName(prefix, i)].gpioNumber == gpios[i] && r[PinName(prefix, i)].sys == sys
  {
    r := pins;
    var index := 0;
    while index < |gpios|
      invariant 0 <= index <= |gpios|
      invariant r.Keys == pins.Keys + NameSet(prefix, index)
      invariant forall name :: name in pins && name !in NameSet(prefix, |gpios|) ==> r[name] == pins[name]
      invariant forall i :: 0 <= i < index ==>
        r[PinName(prefix, i)].gpioNumber == gpios[i] && r[PinName(prefix, i)].sys == sys
    {
      var name := PinName(prefix, index);
      NameSetGrow(prefix, index);
      forall i | 0 <= i < index ensures PinName(prefix, i) != name {
        PinNameInjective(prefix, i, prefix, index);
      }
      var pin := new Pin(gpios[index], sys);
      r := r[name := pin];
      index := index + 1;
    }
  }

  /** The CSI pass into an empty map followed by the XIO pass gives the
      board table. */
  lemma {:induction false} TwoPassesBuildTable(v: KernelVersion, csi: map<string, Pin>,
                                               pins: map<string, Pin>, sys: Sysfs)
    requires csi.Keys == NameSet("CSI", |CSI_GPIOS|)
    requires forall i :: 0 <= i < |CSI_GPIOS| ==>
      csi[PinName("CSI", i)].gpioNumber == CSI_GPIOS[i] && csi[PinName("CSI", i)].sys == sys
    requires pins.Keys == csi.Keys + NameSet("XIO", |XioGpios(v)|)
    requires forall name :: name in csi && name !in NameSet("XIO", |XioGpios(v)|) ==> pins[name] == csi[name]
    requires forall i :: 0 <= i < |XioGpios(v)| ==>
      pins[PinName("XIO", i)].gpioNumber == XioGpios(v)[i] && pins[PinName("XIO", i)].sys == sys
    ensures |pins| == 16
    ensures forall name :: name in pins <==> BoardGpio(v, name).Some?
    ensures forall name :: name in pins ==>
      pins[name].gpioNumber == BoardGpio(v, name).value && pins[name].sys == sys
  {
    assert |XioGpios(v)| == |CSI_GPIOS| == 8;
    BoardNameCount();
    CsiEntriesKept(v, csi, pins);
    PinTableMatchesRule(v, pins);
    PinsOnSys(pins, sys);
  }

  /** A table whose CSI and XIO entries are handles on sys holds only
      handles on sys. */
  lemma {:induction false} PinsOnSys(pins: map<string, Pin>, sys: Sysfs)
    requires pins.Keys == NameSet("CSI", 8) + NameSet("XIO", 8)
    requires forall i :: 0 <= i < 8 ==> pins[PinName("CSI", i)].sys == sys
    requires forall i :: 0 <= i < 8 ==> pins[PinName("XIO", i)].sys == sys
    ensures forall name :: name in pins ==> pins[name].sys == sys
  {
    forall name | name in pins ensures pins[name].sys == sys {
      var i :| 0 <= i < 8 && (name == PinName("CSI", i) || name == PinName("XIO", i));
    }
  }

  /** The XIO pass leaves the CSI entries as the CSI pass made them. */
  lemma {:induction false} CsiEntriesKept(v: KernelVersion, csi: map<string, Pin>, pins: map<string, Pin>)
    requires |XioGpios(v)| == 8
    requires csi.Keys == NameSet("CSI", 8) && csi.Keys <= pins.Keys
    requires forall name :: name in csi && name !in NameSet("XIO", 8) ==> pins[name] == csi[name]
    ensures forall i :: 0 <= i < 8 ==> PinName("CSI", i) in csi && pins[PinName("CSI", i)] == csi[PinName("CSI", i)]
  {
    forall i | 0 <= i < 8
      ensures PinName("CSI", i) in csi && pins[PinName("CSI", i)] == csi[PinName("CSI", i)]
    {
      assert PinName("CSI", i) in NameSet("CSI", 8);
      NameSetExcludes("XIO", 8, "CSI", i);
    }
  }

  /** get_pins: one handle per board line, keyed by name, built by walking
      the CSI list and then the XIO list of the running kernel's version. */
  method GetPins(sys: Sysfs, p: ProcVersion) returns (pins: map<string, Pin>)
    ensures |pins| == 16
    ensures forall name :: name in pins <==> BoardGpio(ChipVersion(p), name).Some?
    ensures forall name :: name in pins ==>
      pins[name].gpioNumber == BoardGpio(ChipVersion(p), name).value && pins[name].sys == sys
  {
    var version := ChipVersion(p);
    var xio := XioGpios(version);
    var csi := AddLines(map[], "CSI", CSI_GPIOS, sys);
    pins := AddLines(csi, "XIO", xio, sys);
    TwoPassesBuildTable(version, csi, pins, sys);
  }
}
