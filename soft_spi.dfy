/** The bit-banged SPI writer: a clock line and an output line driven
    through their sysfs value files, one word after another, one bit after
    another. What a write does is the ordered list of value-file writes it
    makes; `WriteTrace` gives that list for a whole call. */
module SoftSpiBus {
  import opened Basics
  import opened Gpio

  datatype SpiError =
    | ArgumentError(problem: ArgumentProblem)  // a constructor argument was rejected
    | NoSuchPin(name: string)         // a pin name the board table does not have
    | PinFailure(cause: PinError)     // a pin operation raised
    | NoOutputPin                     // write without an output pin

  /** Which constructor check failed; Message gives the text initialize raises. */
  datatype ArgumentProblem = ClockRequired | NoDataPin | PolarityNotBinary | PhaseNotBinary

  function Message(p: ArgumentProblem): string
  {
    match p
    case ClockRequired => "clock_pin is required"
    case NoDataPin => "At least input_pin or output_pin must be specified"
    case PolarityNotBinary => "polarity must be either 0 or 1"
    case PhaseNotBinary => "phase must be either 0 or 1"
  }

  // ---------------------------------------------------------------------
  // Words and bits

  /** The largest word of wordSize bits. */
  function MaxWord(wordSize: nat): (m: int)
    ensures 0 <= m < Pow(2, wordSize)
    ensures m + 1 == Pow(2, wordSize)
  {
    Pow(2, wordSize) - 1
  }

  /** The clamping at the top of the write loop: a word below 0 is sent as
      0 and one above MaxWord as MaxWord. */
  function Clamp(w: int, wordSize: nat): (c: int)
    ensures 0 <= c <= MaxWord(wordSize)
    ensures 0 <= w <= MaxWord(wordSize) ==> c == w
    ensures w < 0 ==> c == 0
    ensures w > MaxWord(wordSize) ==> c == MaxWord(wordSize)
  {
    if w < 0 then 0 else if w > MaxWord(wordSize) then MaxWord(wordSize) else w
  }

  /** Bit b of w, 1 when w & (1 << b) is positive; w is never negative
      where the writer asks. */
  function Bit(w: int, b: nat): (r: int)
    ensures r == 0 || r == 1
    decreases b
  {
    if b == 0 then w % 2 else Bit(w / 2, b - 1)
  }

  /** Every one of the wordSize bits of MaxWord is set. */
  lemma {:induction false} MaxWordAllOnes(wordSize: nat, b: nat)
    requires b < wordSize
    ensures Bit(MaxWord(wordSize), b) == 1
    decreases b
  {
    var p := Pow(2, wordSize - 1);
    assert MaxWord(wordSize) == 2 * p - 1;
    if b > 0 {
      assert MaxWord(wordSize) / 2 == MaxWord(wordSize - 1);
      MaxWordAllOnes(wordSize - 1, b - 1);
    }
  }

  /** The bits 0 .. n - 1 of w, least significant first. */
  function BitsOf(w: int, n: nat): (bs: seq<int>)
    ensures |bs| == n
    ensures forall b :: 0 <= b < n ==> bs[b] == Bit(w, b)
  {
    seq(n, b requires 0 <= b < n => Bit(w, b))
  }

  /** The number whose binary digits, least significant first, are bs. */
  function Recompose(bs: seq<int>): int
  {
    if bs == [] then 0 else bs[0] + 2 * Recompose(bs[1..])
  }

  lemma {:induction false} BitsRecompose(w: int, n: nat)
    requires 0 <= w < Pow(2, n)
    ensures Recompose(BitsOf(w, n)) == w
  {
    if n > 0 {
      var bs := BitsOf(w, n);
      assert bs[1..] == BitsOf(w / 2, n - 1);
      BitsRecompose(w / 2, n - 1);
    }
  }

  /** The wordSize bits the writer sends for a word are the binary digits of
      the clamped word: nothing of it is lost. */
  lemma SentBitsEncodeWord(w: int, wordSize: nat)
    ensures Recompose(BitsOf(Clamp(w, wordSize), wordSize)) == Clamp(w, wordSize)
  {
    BitsRecompose(Clamp(w, wordSize), wordSize);
  }

  function Reverse<T>(s: seq<T>): (r: seq<T>)
    ensures |r| == |s|
    ensures forall i :: 0 <= i < |s| ==> r[i] == s[|s| - 1 - i]
  {
    if s == [] then [] else Reverse(s[1..]) + [s[0]]
  }

  /** The bit positions in the order they are sent: 0 up to wordSize - 1,
      or wordSize - 1 down to 0 when the output is reversed. */
  function BitOrder(wordSize: nat, reverse: bool): (bits: seq<nat>)
    ensures |bits| == wordSize
    ensures forall j :: 0 <= j < wordSize ==> bits[j] == if reverse then wordSize - 1 - j else j
  {
    var up := seq(wordSize, i => i);
    if reverse then Reverse(up) else up
  }

  // ---------------------------------------------------------------------
  // The write trace

  /** The two lines a write drives and the clock's active level. */
  datatype Lines = Lines(clock: nat, output: nat, polarity: int)

  /** The clock at rest, 1 - polarity. */
  function Idle(l: Lines): PinWrite
  {
    PinWrite(l.clock, 1 - l.polarity)
  }

  /** The clock's active edge, polarity. */
  function Active(l: Lines): PinWrite
  {
    PinWrite(l.clock, l.polarity)
  }

  /** Three writes per bit: clock to rest, the bit on the output, clock
      active. */
  function BitsTrace(l: Lines, w: int, bits: seq<nat>): (t: seq<PinWrite>)
    ensures |t| == 3 * |bits|
  {
    if bits == [] then []
    else [Idle(l), PinWrite(l.output, Bit(w, bits[0])), Active(l)] + BitsTrace(l, w, bits[1..])
  }

  /** One word: its clamped bits, then the clock back to rest. */
  function WordTrace(l: Lines, wordSize: nat, w: int, bits: seq<nat>): (t: seq<PinWrite>)
    ensures |t| == 3 * |bits| + 1
  {
    BitsTrace(l, Clamp(w, wordSize), bits) + [Idle(l)]
  }

  /** The words one after another. */
  function WordsTrace(l: Lines, wordSize: nat, words: seq<int>, bits: seq<nat>): (t: seq<PinWrite>)
    ensures t == [] <==> words == []
  {
    if words == [] then []
    else WordTrace(l, wordSize, words[0], bits) + WordsTrace(l, wordSize, words[1..], bits)
  }

  /** Every value-file write of write(words, reverse_output), in order. */
  function WriteTrace(l: Lines, wordSize: nat, words: seq<int>, reverse: bool): (t: seq<PinWrite>)
    ensures t == [] <==> words == []
  {
    WordsTrace(l, wordSize, if reverse then Reverse(words) else words, BitOrder(wordSize, reverse))
  }

  lemma {:induction false} WordsTraceLength(l: Lines, wordSize: nat, words: seq<int>, bits: seq<nat>)
    ensures |WordsTrace(l, wordSize, words, bits)| == |words| * (3 * |bits| + 1)
  {
    if words != [] {
      WordsTraceLength(l, wordSize, words[1..], bits);
      MulStep(|words|, 3 * |bits| + 1);
    }
  }

  /** Bit j of the order occupies positions 3j, 3j + 1 and 3j + 2. */
  lemma {:induction false} BitsTraceAt(l: Lines, w: int, bits: seq<nat>, j: nat)
    requires j < |bits|
    ensures BitsTrace(l, w, bits)[3 * j] == Idle(l)
    ensures BitsTrace(l, w, bits)[3 * j + 1] == PinWrite(l.output, Bit(w, bits[j]))
    ensures BitsTrace(l, w, bits)[3 * j + 2] == Active(l)
  {
    var head := [Idle(l), PinWrite(l.output, Bit(w, bits[0])), Active(l)];
    var rest := BitsTrace(l, w, bits[1..]);
    assert BitsTrace(l, w, bits) == head + rest;
    if j > 0 {
      BitsTraceAt(l, w, bits[1..], j - 1);
      assert bits[1..][j - 1] == bits[j];
    }
  }

  lemma {:induction false} WordsTraceAppend(l: Lines, wordSize: nat, a: seq<int>, b: seq<int>, bits: seq<nat>)
    ensures WordsTrace(l, wordSize, a + b, bits) == WordsTrace(l, wordSize, a, bits) + WordsTrace(l, wordSize, b, bits)
  {
    if a == [] {
      assert a + b == b;
    } else {
      assert (a + b)[1..] == a[1..] + b;
      WordsTraceAppend(l, wordSize, a[1..], b, bits);
    }
  }

  /** The trace of the words is that of the words before k, then word k's,
      then that of the words after it. */
  lemma {:induction false} WordsTraceSplit(l: Lines, wordSize: nat, words: seq<int>, bits: seq<nat>, k: nat)
    requires k < |words|
    ensures WordsTrace(l, wordSize, words, bits) ==
      WordsTrace(l, wordSize, words[..k], bits) + WordTrace(l, wordSize, words[k], bits) +
      WordsTrace(l, wordSize, words[k + 1..], bits)
  {
    var rest := words[k..];
    assert words == words[..k] + rest;
    WordsTraceAppend(l, wordSize, words[..k], rest, bits);
    assert rest[0] == words[k] && rest[1..] == words[k + 1..];
  }

  /** Word k of the order occupies the k-th block of 3 * |bits| + 1 writes. */
  lemma {:induction false} WordsTraceAt(l: Lines, wordSize: nat, words: seq<int>, bits: seq<nat>, k: nat, i: nat)
    requires k < |words| && i < 3 * |bits| + 1
    ensures k * (3 * |bits| + 1) + i < |WordsTrace(l, wordSize, words, bits)|
    ensures WordsTrace(l, wordSize, words, bits)[k * (3 * |bits| + 1) + i] == WordTrace(l, wordSize, words[k], bits)[i]
  {
    var before := WordsTrace(l, wordSize, words[..k], bits);
    var word := WordTrace(l, wordSize, words[k], bits);
    WordsTraceSplit(l, wordSize, words, bits, k);
    assert WordsTrace(l, wordSize, words, bits)[|before| + i] == word[i];
    WordsTraceLength(l, wordSize, words[..k], bits);
  }

  /** The trace of one word: for its j-th bit sent, the clock at rest, that
      bit of the clamped word and the clock active; last, the clock at rest. */
  lemma {:induction false} WordTraceAt(l: Lines, wordSize: nat, w: int, bits: seq<nat>, j: nat)
    requires j < |bits|
    ensures var word := WordTrace(l, wordSize, w, bits);
      word[3 * j] == Idle(l) &&
      word[3 * j + 1] == PinWrite(l.output, Bit(Clamp(w, wordSize), bits[j])) &&
      word[3 * j + 2] == Active(l) &&
      word[3 * |bits|] == Idle(l)
  {
    var bitsTrace := BitsTrace(l, Clamp(w, wordSize), bits);
    assert WordTrace(l, wordSize, w, bits) == bitsTrace + [Idle(l)];
    BitsTraceAt(l, Clamp(w, wordSize), bits, j);
  }

  /** Block k of a words trace: for the j-th bit sent, the clock at rest,
      that bit of the clamped word on the output line and the clock active;
      the block ends with the clock at rest. */
  lemma {:induction false} WordsTraceBlock(l: Lines, wordSize: nat, order: seq<int>, bits: seq<nat>, k: nat, j: nat)
    requires k < |order| && j < |bits|
    ensures var t, base := WordsTrace(l, wordSize, order, bits), k * (3 * |bits| + 1);
      var w := Clamp(order[k], wordSize);
      base + 3 * |bits| < |t| &&
      t[base + 3 * j] == Idle(l) &&
      t[base + 3 * j + 1] == PinWrite(l.output, Bit(w, bits[j])) &&
      t[base + 3 * j + 2] == Active(l) &&
      t[base + 3 * |bits|] == Idle(l)
  {
    var before := WordsTrace(l, wordSize, order[..k], bits);
    var word := WordTrace(l, wordSize, order[k], bits);
    var after := WordsTrace(l, wordSize, order[k + 1..], bits);
    WordsTraceSplit(l, wordSize, order, bits, k);
    WordTraceAt(l, wordSize, order[k], bits, j);
    WordsTraceLength(l, wordSize, order[..k], bits);
    assert |order[..k]| == k;
    var t, base := before + word + after, |before|;
    assert base == k * (3 * |bits| + 1);
    InMiddle(before, word, after, 3 * j);
    InMiddle(before, word, after, 3 * j + 1);
    InMiddle(before, word, after, 3 * j + 2);
    InMiddle(before, word, after, 3 * |bits|);
    var data := word[3 * j + 1];
    assert data == PinWrite(l.output, Bit(Clamp(order[k], wordSize), bits[j]));
    assert t[base + 3 * j + 1] == data;
    var whole, start := WordsTrace(l, wordSize, order, bits), k * (3 * |bits| + 1);
    assert whole == t && start == base;
    assert start + 3 * |bits| < |whole|;
    assert whole[start + 3 * j] == Idle(l) && whole[start + 3 * j + 1] == data;
    assert whole[start + 3 * j + 2] == Active(l) && whole[start + 3 * |bits|] == Idle(l);
  }

  /** Position |a| + i of a + b + c is position i of b. */
  lemma {:induction false} InMiddle<T>(a: seq<T>, b: seq<T>, c: seq<T>, i: nat)
    requires i < |b|
    ensures |a| + i < |a + b + c| && (a + b + c)[|a| + i] == b[i]
  {
  }

  /** A write sends |words| blocks of 3 * wordSize + 1 pin writes. In block
      k (the k-th word sent: words[k], or words[|words| - 1 - k] when
      reversed) and for the j-th bit sent (bit j, or bit wordSize - 1 - j
      when reversed) come the clock at rest, that bit of the clamped word
      on the output line and the clock active; the block ends with the
      clock at rest. */
  lemma {:induction false} WriteTraceAt(l: Lines, wordSize: nat, words: seq<int>, reverse: bool, k: nat, j: nat)
    requires k < |words| && j < wordSize
    ensures |WriteTrace(l, wordSize, words, reverse)| == |words| * (3 * wordSize + 1)
    ensures var t, base := WriteTrace(l, wordSize, words, reverse), k * (3 * wordSize + 1);
      var w := Clamp(if reverse then words[|words| - 1 - k] else words[k], wordSize);
      var b := if reverse then wordSize - 1 - j else j;
      base + 3 * wordSize < |t| &&
      t[base + 3 * j] == Idle(l) &&
      t[base + 3 * j + 1] == PinWrite(l.output, Bit(w, b)) &&
      t[base + 3 * j + 2] == Active(l) &&
      t[base + 3 * wordSize] == Idle(l)
  {
    var order := if reverse then Reverse(words) else words;
    var bits := BitOrder(wordSize, reverse);
    assert WriteTrace(l, wordSize, words, reverse) == WordsTrace(l, wordSize, order, bits);
    assert order[k] == if reverse then words[|words| - 1 - k] else words[k];
    assert bits[j] == if reverse then wordSize - 1 - j else j;
    WordsTraceLength(l, wordSize, order, bits);
    WordsTraceBlock(l, wordSize, order, bits, k, j);
  }

  /** Only the clock and the output line are written: the clock with its
      two levels, the output with 0 or 1. */
  lemma {:induction false} WordsTraceLines(l: Lines, wordSize: nat, words: seq<int>, bits: seq<nat>)
    ensures forall x :: x in WordsTrace(l, wordSize, words, bits) ==>
      x == Idle(l) || x == Active(l) || (x.gpio == l.output && (x.value == 0 || x.value == 1))
  {
    if words != [] {
      WordsTraceLines(l, wordSize, words[1..], bits);
      BitsTraceLines(l, Clamp(words[0], wordSize), bits);
    }
  }

  lemma {:induction false} BitsTraceLines(l: Lines, w: int, bits: seq<nat>)
    ensures forall x :: x in BitsTrace(l, w, bits) ==>
      x == Idle(l) || x == Active(l) || (x.gpio == l.output && (x.value == 0 || x.value == 1))
  {
    if bits != [] {
      BitsTraceLines(l, w, bits[1..]);
    }
  }

  /** The trace of a write of at least one word ends with the clock at rest. */
  lemma WriteTraceEndsAtRest(l: Lines, wordSize: nat, words: seq<int>, reverse: bool)
    requires words != []
    ensures var t := WriteTrace(l, wordSize, words, reverse); t != [] && t[|t| - 1] == Idle(l)
  {
    var order := if reverse then Reverse(words) else words;
    var bits := BitOrder(wordSize, reverse);
    WordsTraceLength(l, wordSize, order, bits);
    WordsTraceAt(l, wordSize, order, bits, |words| - 1, 3 * wordSize);
    MulStep(|words|, 3 * wordSize + 1);
  }

  // ---------------------------------------------------------------------
  // Trace and file system

  /** How many writes of t, from the start, go to exported lines: value=
      raises at the first write to a line that is not. */
  function AvailablePrefix(t: seq<PinWrite>, exported: set<nat>): (n: nat)
    ensures n <= |t|
    ensures forall i :: 0 <= i < n ==> t[i].gpio in exported
    ensures n < |t| ==> t[n].gpio !in exported
  {
    if t == [] || t[0].gpio !in exported then 0
    else 1 + AvailablePrefix(t[1..], exported)
  }

  ghost predicate AllOn(t: seq<PinWrite>, exported: set<nat>)
  {
    forall i :: 0 <= i < |t| ==> t[i].gpio in exported
  }

  /** The value files after the writes t, oldest first: each holds the
      decimal text of the last value written to it. */
  function ApplyWrites(texts: map<nat, string>, t: seq<PinWrite>): map<nat, string>
  {
    if t == [] then texts
    else ApplyWrites(texts, t[..|t| - 1])[t[|t| - 1].gpio := IntToString(t[|t| - 1].value)]
  }

  /** The value file a trace writes last holds the text of that last write. */
  lemma LastWriteShows(texts: map<nat, string>, t: seq<PinWrite>)
    requires t != []
    ensures t[|t| - 1].gpio in ApplyWrites(texts, t)
    ensures ApplyWrites(texts, t)[t[|t| - 1].gpio] == IntToString(t[|t| - 1].value)
  {
  }

  /** A trace whose every write goes to an exported line runs to its end. */
  lemma {:induction false} AllOnPrefix(t: seq<PinWrite>, exported: set<nat>)
    requires AllOn(t, exported)
    ensures AvailablePrefix(t, exported) == |t|
  {
    if t != [] {
      AllOnPrefix(t[1..], exported);
    }
  }

  /** A write to a line that is not exported stops the trace there. */
  /** A write refused after the writes sent leaves the log and the value
      files as the available prefix of the whole trace t made them. */
  lemma {:induction false} StoppedAfter(writes0: seq<PinWrite>, texts0: map<nat, string>, sent: seq<PinWrite>,
                                        x: PinWrite, tail: seq<PinWrite>, t: seq<PinWrite>,
                                        writes: seq<PinWrite>, texts: map<nat, string>, exported: set<nat>)
    requires writes == writes0 + sent && texts == ApplyWrites(texts0, sent) && AllOn(sent, exported)
    requires x.gpio !in exported && t == sent + [x] + tail
    ensures var n := AvailablePrefix(t, exported);
      n < |t| && writes == writes0 + t[..n] && texts == ApplyWrites(texts0, t[..n])
  {
    StopsAt(sent, x, tail, exported);
  }

  lemma StopsAt(done: seq<PinWrite>, x: PinWrite, rest: seq<PinWrite>, exported: set<nat>)
    requires AllOn(done, exported) && x.gpio !in exported
    ensures AvailablePrefix(done + [x] + rest, exported) == |done|
    ensures (done + [x] + rest)[..|done|] == done
  {
    var t := done + [x] + rest;
    assert t[|done|] == x;
    forall i | 0 <= i < |done| ensures t[i] == done[i] && t[i].gpio in exported {
    }
  }

  lemma Regroup(done: seq<PinWrite>, x: PinWrite, y: PinWrite, z: PinWrite, after: seq<PinWrite>)
    ensures done + [x, y, z] + after == done + [x] + ([y, z] + after)
    ensures done + [x, y, z] + after == done + [x] + [y] + ([z] + after)
    ensures done + [x, y, z] + after == done + [x] + [y] + [z] + after
    ensures done + [x, y, z] == done + [x] + [y] + [z]
  {
  }

  lemma Shift(done: seq<PinWrite>, head: seq<PinWrite>, after: seq<PinWrite>)
    ensures done + (head + after) == (done + head) + after
  {
  }

  /** The trace from word k on: word k's bits, the clock back to rest, the
      words after it. */
  lemma WordStep(l: Lines, wordSize: nat, order: seq<int>, bits: seq<nat>, k: nat)
    requires k < |order|
    ensures WordsTrace(l, wordSize, order[k..], bits) ==
      BitsTrace(l, Clamp(order[k], wordSize), bits) + ([Idle(l)] + WordsTrace(l, wordSize, order[k + 1..], bits))
  {
    assert order[k..][1..] == order[k + 1..];
  }

  /** The trace from bit j on: bit j's three writes, then the rest. */
  lemma BitStep(l: Lines, w: int, bits: seq<nat>, j: nat, tail: seq<PinWrite>)
    requires j < |bits|
    ensures BitsTrace(l, w, bits[j..]) + tail ==
      [Idle(l), PinWrite(l.output, Bit(w, bits[j])), Active(l)] + (BitsTrace(l, w, bits[j + 1..]) + tail)
  {
    assert bits[j..][1..] == bits[j + 1..];
  }

  lemma {:induction false} BitsTraceSnoc(l: Lines, w: int, bits: seq<nat>, j: nat)
    requires j < |bits|
    ensures BitsTrace(l, w, bits[..j + 1]) ==
      BitsTrace(l, w, bits[..j]) + [Idle(l), PinWrite(l.output, Bit(w, bits[j])), Active(l)]
  {
    if j > 0 {
      assert bits[..j + 1][1..] == bits[1..][..j];
      assert bits[..j][1..] == bits[1..][..j - 1];
      BitsTraceSnoc(l, w, bits[1..], j - 1);
    }
  }

  /** What the writes made so far have done to the file system. */
  ghost predicate Emitted(sys: Sysfs, writes0: seq<PinWrite>, texts0: map<nat, string>, done: seq<PinWrite>)
    reads sys
  {
    sys.valueWrites == writes0 + done &&
    sys.valueText == ApplyWrites(texts0, done) &&
    AllOn(done, sys.exported)
  }

  /** One value= call of the write loop. */
  method Emit(pin: Pin, v: int, ghost writes0: seq<PinWrite>, ghost texts0: map<nat, string>, ghost done: seq<PinWrite>)
    returns (r: Outcome<PinError>)
    requires pin.sys.Valid() && Emitted(pin.sys, writes0, texts0, done)
    modifies pin.sys
    ensures pin.sys.Valid() && pin.sys.exported == old(pin.sys.exported)
    ensures pin.sys.directionText == old(pin.sys.directionText)
    ensures r.Pass? ==> Emitted(pin.sys, writes0, texts0, done + [PinWrite(pin.gpioNumber, v)])
    ensures r.Fail? ==> r == Fail(NotAvailable) && pin.gpioNumber !in pin.sys.exported && unchanged(pin.sys)
  {
    ghost var writes, texts := pin.sys.valueWrites, pin.sys.valueText;
    r := pin.SetValue(v);
    if r.Pass? {
      EmitStep(writes0, texts0, done, PinWrite(pin.gpioNumber, v), writes, texts,
               pin.sys.valueWrites, pin.sys.valueText, pin.sys.exported);
    }
  }

  /** One more write keeps the log and the value files in step with the
      trace written so far. */
  lemma {:induction false} EmitStep(writes0: seq<PinWrite>, texts0: map<nat, string>, done: seq<PinWrite>, x: PinWrite,
                 writes: seq<PinWrite>, texts: map<nat, string>,
                 writes': seq<PinWrite>, texts': map<nat, string>, exported: set<nat>)
    requires writes == writes0 + done && texts == ApplyWrites(texts0, done) && AllOn(done, exported)
    requires writes' == writes + [x] && texts' == texts[x.gpio := IntToString(x.value)] && x.gpio in exported
    ensures writes' == writes0 + (done + [x]) && texts' == ApplyWrites(texts0, done + [x])
    ensures AllOn(done + [x], exported)
  {
    var t := done + [x];
    assert t[..|t| - 1] == done;
    forall i | 0 <= i < |t| ensures t[i].gpio in exported {
      if i < |done| {
        assert t[i] == done[i];
      }
    }
  }

  // ---------------------------------------------------------------------
  // Argument checks

  /** The checks at the top of initialize, in their order. */
  function CheckArguments(clock: Option<string>, input: Option<string>, output: Option<string>,
                          polarity: int, phase: int): (r: Outcome<SpiError>)
    ensures r.Pass? <==>
      clock.Some? && (input.Some? || output.Some?) && (polarity == 0 || polarity == 1) && (phase == 0 || phase == 1)
    ensures clock.None? ==> r == Fail(ArgumentError(ClockRequired))
    ensures clock.Some? && input.None? && output.None? ==> r == Fail(ArgumentError(NoDataPin))
    ensures r.Fail? ==> r.error.ArgumentError?
  {
    if clock.None? then Fail(ArgumentError(ClockRequired))
    else if input.None? && output.None? then Fail(ArgumentError(NoDataPin))
    else if polarity != 0 && polarity != 1 then Fail(ArgumentError(PolarityNotBinary))
    else if phase != 0 && phase != 1 then Fail(ArgumentError(PhaseNotBinary))
    else Pass
  }

  /** The pin names initialize looks up, in the order it exports them: the
      clock, then the input and the output when they are given. */
  function ConfiguredNames(clock: string, input: Option<string>, output: Option<string>): (names: seq<string>)
  {
    [clock] + (if input.Some? then [input.value] else []) + (if output.Some? then [output.value] else [])
  }

  /** How many of names, from the front, are keys of table. */
  function KnownPrefix(table: map<string, nat>, names: seq<string>): (i: nat)
    ensures i <= |names|
    ensures forall j :: 0 <= j < i ==> names[j] in table
    ensures i < |names| ==> names[i] !in table
  {
    if names == [] || names[0] !in table then 0 else 1 + KnownPrefix(table, names[1..])
  }

  /** The known prefix ends at the first name that is not in the table. */
  lemma KnownPrefixIs(table: map<string, nat>, names: seq<string>, k: nat)
    requires k <= |names| && forall j :: 0 <= j < k ==> names[j] in table
    requires k < |names| ==> names[k] !in table
    ensures KnownPrefix(table, names) == k
  {
  }

  /** The line numbers table gives the names, every one of which it holds. */
  function TableLines(table: map<string, nat>, names: seq<string>): (gs: seq<nat>)
    requires forall j :: 0 <= j < |names| ==> names[j] in table
    ensures |gs| == |names|
    ensures forall j :: 0 <= j < |names| ==> gs[j] == table[names[j]]
  {
    seq(|names|, j requires 0 <= j < |names| => table[names[j]])
  }

  lemma TableLinesSnoc(table: map<string, nat>, names: seq<string>, k: nat)
    requires k < |names| && forall j :: 0 <= j <= k ==> names[j] in table
    ensures TableLines(table, names[..k + 1]) == TableLines(table, names[..k]) + [table[names[k]]]
  {
    assert names[..k + 1] == names[..k] + [names[k]];
  }

  /** A 0 written to each of the lines gs, in order. */
  function ZeroWrites(gs: seq<nat>): (t: seq<PinWrite>)
    ensures |t| == |gs|
    ensures forall j :: 0 <= j < |gs| ==> t[j] == PinWrite(gs[j], 0)
  {
    seq(|gs|, j requires 0 <= j < |gs| => PinWrite(gs[j], 0))
  }

  ghost function SetOf(gs: seq<nat>): set<nat>
  {
    set g | g in gs
  }

  /** After exporting the lines gs in turn, starting from exported0 and the
      file texts dirs0 and values0: the lines exported before keep their
      files, the newly exported ones hold what the kernel puts there. */
  ghost predicate ExportedOnly(sys: Sysfs, exported0: set<nat>, dirs0: map<nat, string>,
                               values0: map<nat, string>, gs: seq<nat>)
    reads sys
  {
    sys.Valid() && sys.exported == exported0 + SetOf(gs) &&
    (forall g :: g in exported0 && g in dirs0 && g in values0 ==>
      sys.directionText[g] == dirs0[g] && sys.valueText[g] == values0[g]) &&
    (forall g :: g in sys.exported && g !in exported0 ==>
      sys.directionText[g] == sys.initialDirection && sys.valueText[g] == sys.initialValue)
  }

  /** `pin.export if not pin.available?` */
  method ExportIfNeeded(pin: Pin, ghost exported0: set<nat>, ghost dirs0: map<nat, string>,
                        ghost values0: map<nat, string>, ghost gs: seq<nat>)
    requires ExportedOnly(pin.sys, exported0, dirs0, values0, gs)
    modifies pin.sys
    ensures ExportedOnly(pin.sys, exported0, dirs0, values0, gs + [pin.gpioNumber])
    ensures pin.sys.valueWrites == old(pin.sys.valueWrites)
  {
    assert SetOf(gs + [pin.gpioNumber]) == SetOf(gs) + {pin.gpioNumber};
    if !pin.Available() {
      var o := pin.Export();
    }
  }

  // ---------------------------------------------------------------------
  // The writer

  class SoftSpi {
    /** The sysfs tree every pin handle refers to. */
    const sys: Sysfs
    const clockPin: Pin
    const inputPin: Pin?
    const outputPin: Pin?
    const polarity: int
    const phase: int
    const wordSize: nat

    ghost predicate Valid()
      reads sys
    {
      sys.Valid() && clockPin.sys == sys &&
      (inputPin != null ==> inputPin.sys == sys) &&
      (outputPin != null ==> outputPin.sys == sys) &&
      (polarity == 0 || polarity == 1) && (phase == 0 || phase == 1)
    }

    /** Every configured pin reads back as an output at value 0: what
        initialize leaves behind. */
    ghost predicate PinsReady()
      requires Valid()
      reads sys
    {
      clockPin.Direction() == Ok(Output) && clockPin.Value() == Ok(0) &&
      (inputPin != null ==> inputPin.Direction() == Ok(Output) && inputPin.Value() == Ok(0)) &&
      (outputPin != null ==> outputPin.Direction() == Ok(Output) && outputPin.Value() == Ok(0))
    }

    constructor (sys: Sysfs, clockPin: Pin, inputPin: Pin?, outputPin: Pin?, polarity: int, phase: int, wordSize: nat)
      ensures this.sys == sys && this.clockPin == clockPin && this.inputPin == inputPin && this.outputPin == outputPin
      ensures this.polarity == polarity && this.phase == phase && this.wordSize == wordSize
    {
      this.sys := sys;
      this.clockPin := clockPin;
      this.inputPin := inputPin;
      this.outputPin := outputPin;
      this.polarity := polarity;
      this.phase := phase;
      this.wordSize := wordSize;
    }

    /** The lines initialize sets up: the clock, then the input and the
        output when present. */
    function DrivenLines(): seq<nat>
    {
      PinLines(clockPin, inputPin, outputPin)
    }

    /** write: without an output pin it raises before touching any line;
        otherwise it makes the writes of WriteTrace in order, stopping at
        (and raising on) the first one to a line that is not exported. */
    method Write(words: seq<int> := [], reverseOutput: bool := true) returns (r: Outcome<SpiError>)
      requires Valid()
      modifies sys
      ensures sys.Valid() && sys.exported == old(sys.exported) && sys.directionText == old(sys.directionText)
      ensures outputPin == null ==> r == Fail(NoOutputPin) && unchanged(sys)
      ensures outputPin != null ==>
        var trace := WriteTrace(Lines(clockPin.gpioNumber, outputPin.gpioNumber, polarity), wordSize, words, reverseOutput);
        var n := AvailablePrefix(trace, old(sys.exported));
        sys.valueWrites == old(sys.valueWrites) + trace[..n] &&
        sys.valueText == ApplyWrites(old(sys.valueText), trace[..n]) &&
        (r.Pass? <==> n == |trace|) &&
        (r.Fail? ==> r == Fail(PinFailure(NotAvailable)))
      ensures r.Pass? && words != [] ==> clockPin.Value() == Ok(1 - polarity)
    {
      if outputPin == null {
        return Fail(NoOutputPin);
      }
      var output: Pin := outputPin;
      var bits: seq<nat> := seq(wordSize, i => i);
      var order := words;
      if reverseOutput {
        order := Reverse(words);
        bits := Reverse(bits);
      }
      ghost var l := Lines(clockPin.gpioNumber, output.gpioNumber, polarity);
      assert bits == BitOrder(wordSize, reverseOutput);
      r := WriteWords(output, order, bits, l);
    }

    /** The word loop of write over the words and bit positions in the order
        they are sent. */
    method WriteWords(output: Pin, order: seq<int>, bits: seq<nat>, ghost l: Lines) returns (r: Outcome<SpiError>)
      requires Valid() && output == outputPin && l == Lines(clockPin.gpioNumber, output.gpioNumber, polarity)
      modifies sys
      ensures sys.Valid() && sys.exported == old(sys.exported) && sys.directionText == old(sys.directionText)
      ensures var trace := WordsTrace(l, wordSize, order, bits);
        var n := AvailablePrefix(trace, old(sys.exported));
        sys.valueWrites == old(sys.valueWrites) + trace[..n] &&
        sys.valueText == ApplyWrites(old(sys.valueText), trace[..n]) &&
        (r.Pass? <==> n == |trace|) &&
        (r.Fail? ==> r == Fail(PinFailure(NotAvailable)))
      ensures r.Pass? && order != [] ==> clockPin.Value() == Ok(1 - polarity)
    {
      ghost var full := WordsTrace(l, wordSize, order, bits);
      ghost var done: seq<PinWrite> := [];
      assert order[0..] == order;
      var k := 0;
      while k < |order|
        invariant 0 <= k <= |order|
        invariant full == done + WordsTrace(l, wordSize, order[k..], bits)
        invariant sys.Valid() && sys.exported == old(sys.exported) && sys.directionText == old(sys.directionText)
        invariant Emitted(sys, old(sys.valueWrites), old(sys.valueText), done)
        invariant k > 0 ==> done != [] && done[|done| - 1] == Idle(l)
      {
        ghost var bitsTrace := BitsTrace(l, Clamp(order[k], wordSize), bits);
        ghost var tail := WordsTrace(l, wordSize, order[k + 1..], bits);
        WordStep(l, wordSize, order, bits, k);
        assert full == done + (bitsTrace + ([Idle(l)] + tail));
        r := WriteWord(output, order[k], bits, l, old(sys.valueWrites), old(sys.valueText), done, tail);
        if r.Fail? {
          return;
        }
        Shift(done, bitsTrace + [Idle(l)], tail);
        Shift(bitsTrace, [Idle(l)], tail);
        done := done + (bitsTrace + [Idle(l)]);
        k := k + 1;
      }
      assert full == done;
      AllOnPrefix(full, old(sys.exported));
      assert full[..|full|] == full;
      if k > 0 {
        ClockLeftAtRest(old(sys.valueText), done, l);
      }
      r := Pass;
    }

    /** After a trace whose last write puts the clock at rest, the clock pin
        reads back 1 - polarity. */
    lemma ClockLeftAtRest(texts0: map<nat, string>, done: seq<PinWrite>, l: Lines)
      requires Valid() && l.clock == clockPin.gpioNumber && l.polarity == polarity
      requires done != [] && done[|done| - 1] == Idle(l)
      requires sys.valueText == ApplyWrites(texts0, done) && AllOn(done, sys.exported)
      ensures clockPin.Value() == Ok(1 - polarity)
    {
      LastWriteShows(texts0, done);
      assert sys.valueText[clockPin.gpioNumber] == IntToString(1 - polarity);
      assert done[|done| - 1].gpio in sys.exported;
      assert clockPin.Available();
      ValueRoundTrip(1 - polarity);
    }

    /** The two reassignments of w at the top of the write loop. */
    method ClampWord(word: int) returns (w: int)
      ensures w == Clamp(word, wordSize)
    {
      w := word;
      if w < 0 {
        w := 0;
      }
      if w > MaxWord(wordSize) {
        w := MaxWord(wordSize);
      }
    }

    /** One word of the write loop: clamped into 0 .. MaxWord, its bits in
        the given order, then the clock back to rest. On a failure the
        writes stop at the trace's first write to a line that is not
        exported. */
    method WriteWord(output: Pin, word: int, bits: seq<nat>, ghost l: Lines, ghost writes0: seq<PinWrite>,
                     ghost texts0: map<nat, string>, ghost done: seq<PinWrite>, ghost tail: seq<PinWrite>)
      returns (r: Outcome<SpiError>)
      requires Valid() && output == outputPin && l == Lines(clockPin.gpioNumber, output.gpioNumber, polarity)
      requires Emitted(sys, writes0, texts0, done)
      modifies sys
      ensures sys.Valid() && sys.exported == old(sys.exported) && sys.directionText == old(sys.directionText)
      ensures r.Pass? ==>
        Emitted(sys, writes0, texts0, done + (BitsTrace(l, Clamp(word, wordSize), bits) + [Idle(l)]))
      ensures r.Fail? ==>
        var t := done + (BitsTrace(l, Clamp(word, wordSize), bits) + ([Idle(l)] + tail));
        var n := AvailablePrefix(t, sys.exported);
        r == Fail(PinFailure(NotAvailable)) && n < |t| &&
        sys.valueWrites == writes0 + t[..n] && sys.valueText == ApplyWrites(texts0, t[..n])
    {
      var w := ClampWord(word);
      ghost var t := done + (BitsTrace(l, Clamp(word, wordSize), bits) + ([Idle(l)] + tail));
      r := WriteBits(output, w, bits, l, writes0, texts0, done, [Idle(l)] + tail);
      if r.Fail? {
        assert w == Clamp(word, wordSize);
        return;
      }
      ghost var sent := done + BitsTrace(l, w, bits);
      Shift(sent, [Idle(l)], tail);
      Shift(done, BitsTrace(l, w, bits), [Idle(l)] + tail);
      assert t == sent + [Idle(l)] + tail;
      var o := Emit(clockPin, 1 - polarity, writes0, texts0, sent);
      if o.Fail? {
        StoppedAfter(writes0, texts0, sent, Idle(l), tail, t, sys.valueWrites, sys.valueText, sys.exported);
        return Fail(PinFailure(o.error));
      }
      Shift(done, BitsTrace(l, w, bits), [Idle(l)]);
    }

    /** The bit loop of one word. */
    method WriteBits(output: Pin, w: int, bits: seq<nat>, ghost l: Lines, ghost writes0: seq<PinWrite>,
                     ghost texts0: map<nat, string>, ghost done: seq<PinWrite>, ghost tail: seq<PinWrite>)
      returns (r: Outcome<SpiError>)
      requires Valid() && output == outputPin && l == Lines(clockPin.gpioNumber, output.gpioNumber, polarity)
      requires Emitted(sys, writes0, texts0, done)
      modifies sys
      ensures sys.Valid() && sys.exported == old(sys.exported) && sys.directionText == old(sys.directionText)
      ensures r.Pass? ==> Emitted(sys, writes0, texts0, done + BitsTrace(l, w, bits))
      ensures r.Fail? ==>
        var t := done + (BitsTrace(l, w, bits) + tail);
        var n := AvailablePrefix(t, sys.exported);
        r == Fail(PinFailure(NotAvailable)) && n < |t| &&
        sys.valueWrites == writes0 + t[..n] && sys.valueText == ApplyWrites(texts0, t[..n])
    {
      ghost var full := done + (BitsTrace(l, w, bits) + tail);
      ghost var sent := done;
      var j := 0;
      while j < |bits|
        invariant 0 <= j <= |bits|
        invariant full == sent + (BitsTrace(l, w, bits[j..]) + tail)
        invariant sent == done + BitsTrace(l, w, bits[..j])
        invariant sys.Valid() && sys.exported == old(sys.exported) && sys.directionText == old(sys.directionText)
        invariant Emitted(sys, writes0, texts0, sent)
      {
        ghost var head := [Idle(l), PinWrite(l.output, Bit(w, bits[j])), Active(l)];
        ghost var after := BitsTrace(l, w, bits[j + 1..]) + tail;
        BitStep(l, w, bits, j, tail);
        Shift(sent, head, after);
        r := WriteBit(output, w, bits[j], l, writes0, texts0, sent, after);
        if r.Fail? {
          return;
        }
        BitsTraceSnoc(l, w, bits, j);
        Shift(done, BitsTrace(l, w, bits[..j]), head);
        sent := sent + head;
        j := j + 1;
      }
      assert bits[..j] == bits;
      r := Pass;
    }

    /** The three writes of one bit: clock to rest, the bit on the output
        line, clock active. On a failure the writes stop at the trace's
        first write to a line that is not exported. */
    method WriteBit(output: Pin, w: int, b: nat, ghost l: Lines, ghost writes0: seq<PinWrite>,
                    ghost texts0: map<nat, string>, ghost done: seq<PinWrite>, ghost after: seq<PinWrite>)
      returns (r: Outcome<SpiError>)
      requires Valid() && output == outputPin && l == Lines(clockPin.gpioNumber, output.gpioNumber, polarity)
      requires Emitted(sys, writes0, texts0, done)
      modifies sys
      ensures sys.Valid() && sys.exported == old(sys.exported) && sys.directionText == old(sys.directionText)
      ensures r.Pass? ==> Emitted(sys, writes0, texts0, done + [Idle(l), PinWrite(l.output, Bit(w, b)), Active(l)])
      ensures r.Fail? ==>
        var t := done + [Idle(l), PinWrite(l.output, Bit(w, b)), Active(l)] + after;
        var n := AvailablePrefix(t, sys.exported);
        r == Fail(PinFailure(NotAvailable)) && n < |t| &&
        sys.valueWrites == writes0 + t[..n] && sys.valueText == ApplyWrites(texts0, t[..n])
    {
      ghost var x, y, z := Idle(l), PinWrite(l.output, Bit(w, b)), Active(l);
      Regroup(done, x, y, z, after);
      var o := Emit(clockPin, 1 - polarity, writes0, texts0, done);
      if o.Fail? {
        StopsAt(done, x, [y, z] + after, sys.exported);
        return Fail(PinFailure(o.error));
      }
      // the output line gets 1 when w & (1 << b) is positive, else 0
      var bit := if Bit(w, b) == 1 then 1 else 0;
      o := Emit(output, bit, writes0, texts0, done + [x]);
      if o.Fail? {
        StopsAt(done + [x], y, [z] + after, sys.exported);
        return Fail(PinFailure(o.error));
      }
      // the clock line has just taken this bit's first write: it is exported
      o := Emit(clockPin, polarity, writes0, texts0, done + [x] + [y]);
      assert o.Pass?;
      r := Pass;
    }
  }

  // ---------------------------------------------------------------------
  // Construction

  /** Each of names is a key of pins exactly when it is a key of table, and
      then its pin is the table's line on sys. */
  ghost predicate Agree(table: map<string, nat>, pins: map<string, Pin>, names: seq<string>, sys: Sysfs)
  {
    (forall j :: 0 <= j < |names| ==> (names[j] in pins <==> names[j] in table)) &&
    (forall j :: 0 <= j < |names| && names[j] in pins ==>
      pins[names[j]].gpioNumber == table[names[j]] && pins[names[j]].sys == sys)
  }

  /** How the exporting stage of initialize ends: it stops at the first
      configured name the table lacks, raising for it, after exporting the
      lines of the names before it; with every name known it passes. */
  ghost predicate ExportOutcome(sys: Sysfs, exported0: set<nat>, dirs0: map<nat, string>, values0: map<nat, string>,
                                table: map<string, nat>, names: seq<string>, r: Outcome<SpiError>)
    reads sys
  {
    var i := KnownPrefix(table, names);
    (r.Pass? <==> i == |names|) &&
    (r.Fail? ==> r == Fail(NoSuchPin(names[i]))) &&
    ExportedOnly(sys, exported0, dirs0, values0, TableLines(table, names[..i]))
  }

  /** The export step of initialize, over the configured names (the clock,
      then the input and the output when they are given): each pin exported
      unless it already is; looking up a name that is not on the board
      raises there. table is the board's name to line map, which pins
      follows. */
  method ExportConfigured(sys: Sysfs, ghost table: map<string, nat>, pins: map<string, Pin>, names: seq<string>)
    returns (r: Outcome<SpiError>)
    requires sys.Valid() && 1 <= |names| <= 3
    requires Agree(table, pins, names, sys)
    modifies sys
    ensures ExportOutcome(sys, old(sys.exported), old(sys.directionText), old(sys.valueText), table, names, r)
    ensures sys.valueWrites == old(sys.valueWrites)
  {
    ghost var e0, d0, v0 := sys.exported, sys.directionText, sys.valueText;
    assert TableLines(table, names[..0]) == [];
    // k counts the names exported so far
    ghost var k := 0;
    r := ExportNamed(sys, table, pins, names, 0, e0, d0, v0);
    if r.Pass? {
      k := 1;
    }
    if r.Pass? && |names| > 1 {
      r := ExportNamed(sys, table, pins, names, 1, e0, d0, v0);
      if r.Pass? {
        k := 2;
      }
      if r.Pass? && |names| > 2 {
        r := ExportNamed(sys, table, pins, names, 2, e0, d0, v0);
        if r.Pass? {
          k := 3;
        }
      }
    }
    if r.Pass? {
      assert k == |names| && ExportedOnly(sys, e0, d0, v0, TableLines(table, names[..k]));
      KnownPrefixIs(table, names, k);
    }
    assert ExportOutcome(sys, e0, d0, v0, table, names, r);
  }

  /** One export line of initialize: the pin looked up for names[k] is
      exported unless it already is; a name that is not on the board
      raises, since there is no pin to ask. */
  method ExportNamed(sys: Sysfs, ghost table: map<string, nat>, pins: map<string, Pin>, names: seq<string>, k: nat,
                     ghost exported0: set<nat>, ghost dirs0: map<nat, string>, ghost values0: map<nat, string>)
    returns (r: Outcome<SpiError>)
    requires k < |names| && forall j :: 0 <= j < k ==> names[j] in table
    requires Agree(table, pins, names, sys)
    requires ExportedOnly(sys, exported0, dirs0, values0, TableLines(table, names[..k]))
    modifies sys
    ensures r.Pass? <==> names[k] in table
    ensures r.Fail? ==> ExportOutcome(sys, exported0, dirs0, values0, table, names, r)
    ensures r.Pass? ==> ExportedOnly(sys, exported0, dirs0, values0, TableLines(table, names[..k + 1]))
    ensures sys.valueWrites == old(sys.valueWrites)
  {
    if names[k] !in pins {
      KnownPrefixIs(table, names, k);
      r := Fail(NoSuchPin(names[k]));
      assert ExportOutcome(sys, exported0, dirs0, values0, table, names, r);
      return;
    }
    ExportIfNeeded(pins[names[k]], exported0, dirs0, values0, TableLines(table, names[..k]));
    TableLinesSnoc(table, names, k);
    r := Pass;
  }

  /** The lines of a clock pin and of an input and an output pin when
      present, in that order. */
  function PinLines(clock: Pin, input: Pin?, output: Pin?): seq<nat>
  {
    [clock.gpioNumber] + (if input != null then [input.gpioNumber] else []) +
    (if output != null then [output.gpioNumber] else [])
  }

  /** Every line outside gs that had a file text before still has it. */
  ghost predicate KeepOthers(before: map<nat, string>, after: map<nat, string>, gs: seq<nat>)
  {
    forall g :: g in before && g !in gs ==> g in after && after[g] == before[g]
  }

  /** Every configured pin to output, in the order clock, input, output. */
  method SetDirections(clock: Pin, input: Pin?, output: Pin?)
    requires clock.sys.Valid() && clock.Available()
    requires input != null ==> input.sys == clock.sys && input.Available()
    requires output != null ==> output.sys == clock.sys && output.Available()
    modifies clock.sys
    ensures clock.sys.Valid() && clock.sys.exported == old(clock.sys.exported)
    ensures clock.sys.valueText == old(clock.sys.valueText) && clock.sys.valueWrites == old(clock.sys.valueWrites)
    ensures forall g :: g in PinLines(clock, input, output) ==> clock.sys.directionText[g] == DirectionText(Output)
    ensures KeepOthers(old(clock.sys.directionText), clock.sys.directionText, PinLines(clock, input, output))
  {
    var o := clock.SetDirection("output");
    if input != null {
      o := input.SetDirection("output");
    }
    if output != null {
      o := output.SetDirection("output");
    }
  }

  /** Every configured pin to 0, in the order clock, input, output. */
  method SetValues(clock: Pin, input: Pin?, output: Pin?)
    requires clock.sys.Valid() && clock.Available()
    requires input != null ==> input.sys == clock.sys && input.Available()
    requires output != null ==> output.sys == clock.sys && output.Available()
    modifies clock.sys
    ensures clock.sys.Valid() && clock.sys.exported == old(clock.sys.exported)
    ensures clock.sys.directionText == old(clock.sys.directionText)
    ensures clock.sys.valueWrites == old(clock.sys.valueWrites) + ZeroWrites(PinLines(clock, input, output))
    ensures forall g :: g in PinLines(clock, input, output) ==> clock.sys.valueText[g] == IntToString(0)
    ensures KeepOthers(old(clock.sys.valueText), clock.sys.valueText, PinLines(clock, input, output))
  {
    var o := clock.SetValue(0);
    if input != null {
      o := input.SetValue(0);
    }
    if output != null {
      o := output.SetValue(0);
    }
  }

  /** The set-up step of initialize: every configured pin to output, then
      every one to 0. */
  method SetUpPins(clock: Pin, input: Pin?, output: Pin?)
    requires clock.sys.Valid() && clock.Available()
    requires input != null ==> input.sys == clock.sys && input.Available()
    requires output != null ==> output.sys == clock.sys && output.Available()
    modifies clock.sys
    ensures clock.sys.Valid() && clock.sys.exported == old(clock.sys.exported)
    ensures clock.sys.valueWrites == old(clock.sys.valueWrites) + ZeroWrites(PinLines(clock, input, output))
    ensures clock.Direction() == Ok(Output) && clock.Value() == Ok(0)
    ensures input != null ==> input.Direction() == Ok(Output) && input.Value() == Ok(0)
    ensures output != null ==> output.Direction() == Ok(Output) && output.Value() == Ok(0)
    ensures KeepOthers(old(clock.sys.directionText), clock.sys.directionText, PinLines(clock, input, output))
    ensures KeepOthers(old(clock.sys.valueText), clock.sys.valueText, PinLines(clock, input, output))
  {
    SetDirections(clock, input, output);
    SetValues(clock, input, output);
    PinSetUp(clock);
    if input != null {
      PinSetUp(input);
    }
    if output != null {
      PinSetUp(output);
    }
  }

  /** A line whose files hold "out" and "0" reads back as output and 0. */
  lemma PinSetUp(pin: Pin)
    requires pin.sys.Valid() && pin.Available()
    requires pin.sys.directionText[pin.gpioNumber] == DirectionText(Output)
    requires pin.sys.valueText[pin.gpioNumber] == IntToString(0)
    ensures pin.Direction() == Ok(Output) && pin.Value() == Ok(0)
  {
    DirectionRoundTrip(Output);
    ValueRoundTrip(0);
  }

  /** initialize: the argument checks; then the board's pin table and a
      lookup of each configured name; each configured pin exported unless
      it already is (a name that is not on the board raises there, after
      the pins before it were exported); then each set to output and to 0,
      in the order clock, input, output. */
  method Create(sys: Sysfs, p: ProcVersion, clockName: Option<string> := None, inputName: Option<string> := None,
                outputName: Option<string> := None, polarity: int := 1, phase: int := 0, wordSize: nat := 8)
    returns (r: Result<SoftSpi, SpiError>)
    requires sys.Valid()
    modifies sys
    ensures sys.Valid()
    ensures CheckArguments(clockName, inputName, outputName, polarity, phase).Fail? ==>
      r == Err(CheckArguments(clockName, inputName, outputName, polarity, phase).error) &&
      sys.exported == old(sys.exported) && sys.valueWrites == old(sys.valueWrites) &&
      sys.directionText == old(sys.directionText) && sys.valueText == old(sys.valueText)
    ensures CheckArguments(clockName, inputName, outputName, polarity, phase).Pass? ==>
      var table := BoardTable(ChipVersion(p));
      var names := ConfiguredNames(clockName.value, inputName, outputName);
      var i := KnownPrefix(table, names);
      (r.Ok? <==> i == |names|) &&
      sys.exported == old(sys.exported) + SetOf(TableLines(table, names[..i])) &&
      (r.Err? ==>
        r == Err(NoSuchPin(names[i])) && sys.valueWrites == old(sys.valueWrites) &&
        ExportedOnly(sys, old(sys.exported), old(sys.directionText), old(sys.valueText), TableLines(table, names[..i])))
    ensures r.Ok? ==>
      var s := r.value;
      s.Valid() && s.sys == sys && s.polarity == polarity && s.phase == phase && s.wordSize == wordSize &&
      (s.inputPin == null <==> inputName.None?) && (s.outputPin == null <==> outputName.None?) &&
      s.DrivenLines() == TableLines(BoardTable(ChipVersion(p)), ConfiguredNames(clockName.value, inputName, outputName)) &&
      sys.valueWrites == old(sys.valueWrites) + ZeroWrites(s.DrivenLines()) &&
      s.PinsReady() &&
      KeepOthers(old(sys.directionText), sys.directionText, s.DrivenLines()) &&
      KeepOthers(old(sys.valueText), sys.valueText, s.DrivenLines())
  {
    var check := CheckArguments(clockName, inputName, outputName, polarity, phase);
    if check.Fail? {
      return Err(check.error);
    }
    ghost var table := BoardTable(ChipVersion(p));
    var pins := BoardPins(sys, p);
    var names := ConfiguredNames(clockName.value, inputName, outputName);
    var exported := ExportConfigured(sys, table, pins, names);
    if exported.Fail? {
      return Err(exported.error);
    }
    assert names[..|names|] == names;
    var s := Configure(sys, table, pins, clockName.value, inputName, outputName, polarity, phase, wordSize);
    r := Ok(s);
  }

  /** The pin table initialize consults, read as a map from names to lines. */
  method BoardPins(sys: Sysfs, p: ProcVersion) returns (pins: map<string, Pin>)
    ensures forall name :: name in pins <==> name in BoardTable(ChipVersion(p))
    ensures forall name :: name in pins ==>
      pins[name].gpioNumber == BoardTable(ChipVersion(p))[name] && pins[name].sys == sys
  {
    pins := GetPins(sys, p);
    PinsFollowTable(ChipVersion(p), pins, sys);
  }

  /** The rest of initialize once every configured name has been found and
      exported: the object is built and each of its pins is set up. */
  method Configure(sys: Sysfs, ghost table: map<string, nat>, pins: map<string, Pin>, clockName: string,
                   inputName: Option<string>, outputName: Option<string>, polarity: int, phase: int, wordSize: nat)
    returns (s: SoftSpi)
    requires sys.Valid() && (polarity == 0 || polarity == 1) && (phase == 0 || phase == 1)
    requires forall name :: name in pins <==> name in table
    requires forall name :: name in pins ==> pins[name].gpioNumber == table[name] && pins[name].sys == sys
    requires KnownPrefix(table, ConfiguredNames(clockName, inputName, outputName)) ==
      |ConfiguredNames(clockName, inputName, outputName)|
    requires SetOf(TableLines(table, ConfiguredNames(clockName, inputName, outputName))) <= sys.exported
    modifies sys
    ensures s.Valid() && s.sys == sys && s.polarity == polarity && s.phase == phase && s.wordSize == wordSize
    ensures (s.inputPin == null <==> inputName.None?) && (s.outputPin == null <==> outputName.None?)
    ensures s.DrivenLines() == TableLines(table, ConfiguredNames(clockName, inputName, outputName))
    ensures sys.exported == old(sys.exported)
    ensures sys.valueWrites == old(sys.valueWrites) + ZeroWrites(s.DrivenLines())
    ensures s.PinsReady()
    ensures KeepOthers(old(sys.directionText), sys.directionText, s.DrivenLines())
    ensures KeepOthers(old(sys.valueText), sys.valueText, s.DrivenLines())
  {
    ghost var names := ConfiguredNames(clockName, inputName, outputName);
    ConfiguredPins(table, pins, sys, clockName, inputName, outputName);
    var clock := pins[clockName];
    var input: Pin? := if inputName.Some? then pins[inputName.value] else null;
    var output: Pin? := if outputName.Some? then pins[outputName.value] else null;
    s := new SoftSpi(sys, clock, input, output, polarity, phase, wordSize);
    ghost var lines := s.DrivenLines();
    assert lines == TableLines(table, names);
    assert clock.gpioNumber == lines[0] && clock.gpioNumber in SetOf(lines);
    assert input != null ==> input.gpioNumber == lines[1] && input.gpioNumber in SetOf(lines);
    assert output != null ==> output.gpioNumber == lines[|lines| - 1] && output.gpioNumber in SetOf(lines);
    SetUpPins(clock, input, output);
    assert s.PinsReady();
  }

  /** The pins get_pins returns are keyed and numbered as the board table. */
  lemma PinsFollowTable(v: KernelVersion, pins: map<string, Pin>, sys: Sysfs)
    requires forall name :: name in pins <==> BoardGpio(v, name).Some?
    requires forall name :: name in pins ==> pins[name].gpioNumber == BoardGpio(v, name).value && pins[name].sys == sys
    ensures forall name :: name in pins <==> name in BoardTable(v)
    ensures forall name :: name in pins ==> pins[name].gpioNumber == BoardTable(v)[name] && pins[name].sys == sys
  {
    BoardTableRule(v);
  }

  /** When every configured name is in the table, the pins looked up for
      them are handles on exactly the lines the table gives. */
  lemma ConfiguredPins(table: map<string, nat>, pins: map<string, Pin>, sys: Sysfs, clockName: string,
                       inputName: Option<string>, outputName: Option<string>)
    requires forall name :: name in pins <==> name in table
    requires forall name :: name in pins ==> pins[name].gpioNumber == table[name] && pins[name].sys == sys
    requires KnownPrefix(table, ConfiguredNames(clockName, inputName, outputName)) ==
      |ConfiguredNames(clockName, inputName, outputName)|
    ensures clockName in pins
    ensures inputName.Some? ==> inputName.value in pins
    ensures outputName.Some? ==> outputName.value in pins
    ensures PinLines(pins[clockName], if inputName.Some? then pins[inputName.value] else null,
                     if outputName.Some? then pins[outputName.value] else null) ==
      TableLines(table, ConfiguredNames(clockName, inputName, outputName))
  {
    var names := ConfiguredNames(clockName, inputName, outputName);
    assert names[0] in table;
    if inputName.Some? {
      assert names[1] in table;
    }
    if outputName.Some? {
      assert names[|names| - 1] in table;
    }
  }
}
