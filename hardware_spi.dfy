/** The kernel SPI controller path: words of a configurable width are broken
    into nibbles, the nibbles are paired into bytes, and the bytes are sent
    in chunks of at most 64 through full-duplex exchanges with the spidev
    device. The device is abstract state: it records what it was asked to
    do, and what the peripheral shifts back is an arbitrary function. */
module HardwareSpiBus {
  import opened Basics

  type Byte = b: int | 0 <= b < 256

  const SPI_MAX_CHUNK_BYTES: nat := 64

  // spidev request codes used when configuring the controller
  const SPI_IOC_WR_MODE: int := 0x40016b01
  const SPI_IOC_WR_LSB_FIRST: int := 0x40016b02
  const SPI_IOC_WR_MAX_SPEED_HZ: int := 0x40046b04

  // bits of the SPI mode byte, as the Linux spidev header defines them
  const SPI_CPHA: bv8 := 0x01
  const SPI_CPOL: bv8 := 0x02

  const DEFAULT_SPEED_HZ: nat := 1000000

  datatype SpiError =
    | TooManyBytes(count: nat)  // "Too many bytes sent to transfer_bytes"
    | DeviceClosed              // an ioctl on a closed device handle

  /** One configuration request: the request code and the value written. */
  datatype Control = Control(request: int, value: int)

  // ---------------------------------------------------------------------
  // Mode byte

  /** The mode byte: the clock phase bit set exactly when phase is 1, the
      clock polarity bit exactly when polarity is 1, and nothing else. */
  function SpiMode(polarity: int, phase: int): (m: bv8)
    ensures m <= 3
    ensures (m & SPI_CPHA != 0) <==> phase == 1
    ensures (m & SPI_CPOL != 0) <==> polarity == 1
  {
    (if phase == 1 then SPI_CPHA else 0) | (if polarity == 1 then SPI_CPOL else 0)
  }

  // ---------------------------------------------------------------------
  // Words to nibbles to bytes

  function NibblesPerWord(wordSize: nat): nat
  {
    wordSize / 4
  }

  /** Nibble i of w, Ruby's (w >> (i * 4)) & 0xf. On Ruby's unbounded
      integers, negative ones included, a right shift by 4 is floor
      division by 16 and & 0xf the remainder in 0..15, which is what
      Dafny's / and % compute for the divisor 16. */
  function Nibble(w: int, i: nat): (n: int)
    ensures 0 <= n < 16
    decreases i
  {
    if i == 0 then w % 16 else Nibble(w / 16, i - 1)
  }

  /** The nibbles break_words_into_nibbles yields for one word, most
      significant first: indices count - 1 down to 0. */
  function WordNibbles(w: int, count: nat): (ns: seq<int>)
    ensures |ns| == count
    ensures forall j :: 0 <= j < count ==> ns[j] == Nibble(w, count - 1 - j)
  {
    if count == 0 then [] else [Nibble(w, count - 1)] + WordNibbles(w, count - 1)
  }

  /** The whole nibble stream of a list of words. */
  function NibbleStream(words: seq<int>, count: nat): (ns: seq<int>)
    ensures |ns| == |words| * count
    ensures forall k :: 0 <= k < |ns| ==> 0 <= ns[k] < 16
  {
    if words == [] then []
    else WordNibbles(words[0], count) + NibbleStream(words[1..], count)
  }

  lemma {:induction false} NibbleStreamSnoc(words: seq<int>, w: int, count: nat)
    ensures NibbleStream(words + [w], count) == NibbleStream(words, count) + WordNibbles(w, count)
  {
    if words != [] {
      assert (words + [w])[1..] == words[1..] + [w];
      NibbleStreamSnoc(words[1..], w, count);
    } else {
      assert (words + [w])[1..] == [];
    }
  }

  /** Nibble j of word k sits at position k * count + j of the stream. */
  lemma {:induction false} NibbleStreamAt(words: seq<int>, count: nat, k: nat, j: nat)
    requires k < |words| && j < count
    ensures k * count + j < |NibbleStream(words, count)|
    ensures NibbleStream(words, count)[k * count + j] == Nibble(words[k], count - 1 - j)
  {
    var head, rest := WordNibbles(words[0], count), NibbleStream(words[1..], count);
    var all := NibbleStream(words, count);
    assert all == head + rest;
    if k > 0 {
      var p := (k - 1) * count + j;
      NibbleStreamAt(words[1..], count, k - 1, j);
      MulStep(k, count);
      assert k * count + j == |head| + p;
      assert all[|head| + p] == rest[p];
      assert words[1..][k - 1] == words[k];
    } else {
      assert all[j] == head[j];
    }
  }

  /** break_words_into_nibbles, with the block it yields to collecting the
      nibbles in order. */
  method BreakWordsIntoNibbles(words: seq<int>, wordSize: nat) returns (nibbles: seq<int>)
    ensures nibbles == NibbleStream(words, NibblesPerWord(wordSize))
  {
    var perWord := wordSize / 4;
    nibbles := [];
    var k := 0;
    while k < |words|
      invariant 0 <= k <= |words|
      invariant nibbles == NibbleStream(words[..k], perWord)
    {
      var w := words[k];
      nibbles := AppendWordNibbles(nibbles, w, perWord);
      assert words[..k + 1] == words[..k] + [w];
      NibbleStreamSnoc(words[..k], w, perWord);
      k := k + 1;
    }
    assert words[..k] == words;
  }

  /** The inner loop of break_words_into_nibbles: the nibbles of w from
      index perWord - 1 down to 0, appended to nibbles. */
  method AppendWordNibbles(nibbles: seq<int>, w: int, perWord: nat) returns (r: seq<int>)
    ensures r == nibbles + WordNibbles(w, perWord)
  {
    ghost var all := WordNibbles(w, perWord);
    r := nibbles;
    var i: int := perWord - 1;
    while i >= 0
      invariant -1 <= i < perWord
      invariant r == nibbles + all[..perWord - 1 - i]
    {
      assert all[..perWord - i] == all[..perWord - 1 - i] + [Nibble(w, i)];
      r := r + [Nibble(w, i)];
      i := i - 1;
    }
    assert all[..perWord] == all;
  }

  /** Consecutive nibbles paired into bytes, the first of each pair in the
      high four bits; an odd last nibble has no partner and is dropped. */
  function PairNibbles(ns: seq<int>): (bs: seq<int>)
    ensures |bs| == |ns| / 2
    ensures forall k :: 0 <= k < |bs| ==> bs[k] == ns[2 * k] * 16 + ns[2 * k + 1]
  {
    if |ns| < 2 then [] else [ns[0] * 16 + ns[1]] + PairNibbles(ns[2..])
  }

  /** The bytes pack_words_into_bytes produces. */
  function PackedBytes(words: seq<int>, wordSize: nat): (bs: seq<int>)
    ensures |bs| == |words| * NibblesPerWord(wordSize) / 2
    ensures forall k :: 0 <= k < |bs| ==> 0 <= bs[k] < 256
  {
    PairNibbles(NibbleStream(words, NibblesPerWord(wordSize)))
  }

  /** pack_words_into_bytes: a byte is started with a high nibble and
      finished, and appended, with a low nibble. */
  method PackWordsIntoBytes(words: seq<int>, wordSize: nat) returns (bytes: seq<Byte>)
    ensures bytes == PackedBytes(words, wordSize)
  {
    var nibbles := BreakWordsIntoNibbles(words, wordSize);
    bytes := [];
    var currentByte := 0;
    var newByte := true;
    var k := 0;
    while k < |nibbles|
      invariant 0 <= k <= |nibbles|
      invariant newByte <==> k % 2 == 0
      invariant currentByte == if newByte then 0 else nibbles[k - 1] * 16
      invariant |bytes| == k / 2
      invariant forall j :: 0 <= j < |bytes| ==> bytes[j] == nibbles[2 * j] * 16 + nibbles[2 * j + 1]
    {
      var nibble := nibbles[k];
      if newByte {
        newByte := false;
        // current_byte | (nibble << 4), with current_byte == 0
        currentByte := currentByte + nibble * 16;
      } else {
        // current_byte | nibble, whose four low bits are still clear
        currentByte := currentByte + nibble;
        bytes := bytes + [currentByte];
        currentByte := 0;
        newByte := true;
      }
      k := k + 1;
    }
  }

  /** Bits of a word above its top nibble do not reach the nibbles: adding
      any multiple of 16^count leaves them unchanged. */
  lemma {:induction false} NibblesIgnoreHighBits(w: int, t: int, count: nat)
    ensures WordNibbles(w + t * Pow(16, count), count) == WordNibbles(w, count)
  {
    forall j | 0 <= j < count
      ensures WordNibbles(w + t * Pow(16, count), count)[j] == WordNibbles(w, count)[j]
    {
      NibbleHighBits(w, t, count, count - 1 - j);
    }
  }

  lemma {:induction false} NibbleHighBits(w: int, t: int, count: nat, i: nat)
    requires i < count
    ensures Nibble(w + t * Pow(16, count), i) == Nibble(w, i)
    decreases i
  {
    var k := t * Pow(16, count - 1);
    assert t * Pow(16, count) == 16 * k;
    if i > 0 {
      assert (w + 16 * k) / 16 == w / 16 + k;
      NibbleHighBits(w / 16, t, count - 1, i - 1);
    }
  }

  /** The last of an odd number of nibbles is ignored: whatever it is, the
      bytes are those of the nibbles before it. */
  lemma {:induction false} TrailingNibbleDropped(ns: seq<int>)
    requires |ns| % 2 == 1
    ensures PairNibbles(ns) == PairNibbles(ns[..|ns| - 1])
  {
    var a, b := PairNibbles(ns), PairNibbles(ns[..|ns| - 1]);
    assert |a| == |b|;
    forall k | 0 <= k < |a| ensures a[k] == b[k] {}
  }

  /** Byte k of the packed stream is nibble 2k of the stream in the high
      four bits and nibble 2k + 1 in the low four. */
  lemma PackedByteAt(words: seq<int>, wordSize: nat, k: nat)
    requires k < |PackedBytes(words, wordSize)|
    ensures var ns := NibbleStream(words, NibblesPerWord(wordSize));
      2 * k + 1 < |ns| && PackedBytes(words, wordSize)[k] == ns[2 * k] * 16 + ns[2 * k + 1]
  {
  }

  /** With 8-bit words every word becomes one byte: its low eight bits. */
  lemma {:induction false} PackEightBitWords(words: seq<int>, i: nat)
    requires i < |words|
    ensures |PackedBytes(words, 8)| == |words|
    ensures PackedBytes(words, 8)[i] == words[i] % 256
  {
    PackedByteAt(words, 8, i);
    NibbleStreamAt(words, 2, i, 0);
    NibbleStreamAt(words, 2, i, 1);
    var w := words[i];
    assert Nibble(w, 1) == (w / 16) % 16;
    LowByte(w);
  }

  lemma LowByte(w: int)
    ensures 16 * ((w / 16) % 16) + w % 16 == w % 256
  {
  }

  /** With 4-bit words each word gives one nibble, its low four bits, and
      consecutive words pair up: the first of a pair in the high half. */
  lemma {:induction false} PackFourBitWords(words: seq<int>, i: nat)
    requires i < |words| / 2
    ensures |PackedBytes(words, 4)| == |words| / 2
    ensures PackedBytes(words, 4)[i] == (words[2 * i] % 16) * 16 + words[2 * i + 1] % 16
  {
    PackedByteAt(words, 4, i);
    NibbleStreamAt(words, 1, 2 * i, 0);
    NibbleStreamAt(words, 1, 2 * i + 1, 0);
  }

  /** Four 4-bit words make two bytes, first word in the high half of the
      first byte; a lone 4-bit word makes none. */
  lemma {:induction false} PackFourBitExample(a: int, b: int, c: int, d: int)
    requires 0 <= a < 16 && 0 <= b < 16 && 0 <= c < 16 && 0 <= d < 16
    ensures PackedBytes([a, b, c, d], 4) == [a * 16 + b, c * 16 + d]
    ensures PackedBytes([a], 4) == []
  {
    var words := [a, b, c, d];
    PackFourBitWords(words, 0);
    PackFourBitWords(words, 1);
    var packed := PackedBytes(words, 4);
    assert words[0] == a && words[1] == b && words[2] == c && words[3] == d;
    assert a % 16 == a && b % 16 == b && c % 16 == c && d % 16 == d;
    PairOf(packed, a * 16 + b, c * 16 + d);
    assert |PackedBytes([a], 4)| == 0;
  }

  /** A two-element sequence is the display of its two elements. */
  lemma PairOf(s: seq<int>, x: int, y: int)
    requires |s| == 2 && s[0] == x && s[1] == y
    ensures s == [x, y]
  {
  }

  // ---------------------------------------------------------------------
  // Chunking

  function Flatten(cs: seq<seq<Byte>>): seq<Byte>
  {
    if cs == [] then [] else cs[0] + Flatten(cs[1..])
  }

  /** each_slice(SPI_MAX_CHUNK_BYTES): the stream cut into consecutive
      pieces of 64 bytes, the last one possibly shorter. */
  function Chunks(s: seq<Byte>): (cs: seq<seq<Byte>>)
    ensures s == [] <==> cs == []
    decreases |s|
  {
    if |s| == 0 then []
    else if |s| <= SPI_MAX_CHUNK_BYTES then [s]
    else [s[..SPI_MAX_CHUNK_BYTES]] + Chunks(s[SPI_MAX_CHUNK_BYTES..])
  }

  /** The chunks put back together are the stream; none is empty or longer
      than 64 bytes, and all but the last are exactly 64. */
  lemma {:induction false} ChunksCover(s: seq<Byte>)
    ensures Flatten(Chunks(s)) == s
    ensures forall i :: 0 <= i < |Chunks(s)| ==> 0 < |Chunks(s)[i]| <= SPI_MAX_CHUNK_BYTES
    ensures forall i :: 0 <= i < |Chunks(s)| - 1 ==> |Chunks(s)[i]| == SPI_MAX_CHUNK_BYTES
    decreases |s|
  {
    if |s| > SPI_MAX_CHUNK_BYTES {
      var rest := s[SPI_MAX_CHUNK_BYTES..];
      ChunksCover(rest);
      var cs := Chunks(s);
      assert cs == [s[..SPI_MAX_CHUNK_BYTES]] + Chunks(rest);
      assert cs[1..] == Chunks(rest);
      assert s == s[..SPI_MAX_CHUNK_BYTES] + rest;
      forall i | 1 <= i < |cs| ensures 0 < |cs[i]| <= SPI_MAX_CHUNK_BYTES {
        assert cs[i] == Chunks(rest)[i - 1];
      }
      forall i | 1 <= i < |cs| - 1 ensures |cs[i]| == SPI_MAX_CHUNK_BYTES {
        assert cs[i] == Chunks(rest)[i - 1];
      }
    }
  }

  /** A stream of n bytes makes ceil(n / 64) chunks; the last holds the
      remaining n - 64 * (count - 1) bytes. */
  lemma {:induction false} ChunkCount(s: seq<Byte>)
    ensures |Chunks(s)| == (|s| + SPI_MAX_CHUNK_BYTES - 1) / SPI_MAX_CHUNK_BYTES
    ensures |s| > 0 ==> |Chunks(s)[|Chunks(s)| - 1]| == |s| - SPI_MAX_CHUNK_BYTES * (|Chunks(s)| - 1)
    decreases |s|
  {
    if |s| > SPI_MAX_CHUNK_BYTES {
      var rest := s[SPI_MAX_CHUNK_BYTES..];
      ChunkCount(rest);
      assert Chunks(s) == [s[..SPI_MAX_CHUNK_BYTES]] + Chunks(rest);
    }
  }

  /** The C* packing of transfer_bytes: each integer's low eight bits. */
  function ToBytes(bytes: seq<int>): (r: seq<Byte>)
    ensures |r| == |bytes|
    ensures forall i :: 0 <= i < |bytes| ==> r[i] == bytes[i] % 256
  {
    seq(|bytes|, i requires 0 <= i < |bytes| => bytes[i] % 256)
  }

  lemma ToBytesOfBytes(s: seq<Byte>)
    ensures ToBytes(s) == s
  {
  }

  /** The chunk that starts at i is the first chunk of the rest of the stream. */
  lemma NextChunk(s: seq<Byte>, i: nat, end: nat)
    requires i < |s|
    requires end == if i + SPI_MAX_CHUNK_BYTES <= |s| then i + SPI_MAX_CHUNK_BYTES else |s|
    ensures Chunks(s[i..]) == [s[i..end]] + Chunks(s[end..])
  {
    if end < |s| {
      assert s[i..][..SPI_MAX_CHUNK_BYTES] == s[i..end];
      assert s[i..][SPI_MAX_CHUNK_BYTES..] == s[end..];
    } else {
      assert s[i..] == s[i..end];
    }
  }

  /** The n bytes the peripheral shifts in from byte time `from` on. */
  function Window(miso: nat -> Byte, from: nat, n: nat): (r: seq<Byte>)
    ensures |r| == n
    ensures forall i :: 0 <= i < n ==> r[i] == miso(from + i)
  {
    seq(n, i requires 0 <= i < n => miso(from + i))
  }

  lemma {:induction false} WindowSplit(miso: nat -> Byte, from: nat, m: nat, n: nat)
    ensures Window(miso, from, m) + Window(miso, from + m, n) == Window(miso, from, m + n)
  {
    var a := Window(miso, from, m) + Window(miso, from + m, n);
    forall i | 0 <= i < m + n ensures a[i] == miso(from + i) {
      if i >= m {
        assert a[i] == Window(miso, from + m, n)[i - m];
      }
    }
  }

  // ---------------------------------------------------------------------
  // The device

  /** An open /dev/spidev handle. */
  class SpiDevice {
    /** The byte the peripheral drives at each byte time; unconstrained. */
    const miso: nat -> Byte
    var isOpen: bool
    /** Configuration requests, oldest first. */
    var controls: seq<Control>
    /** The transmit buffer of every full-duplex exchange, oldest first. */
    var exchanges: seq<seq<Byte>>
    /** Byte times clocked so far. */
    var clocked: nat

    constructor Open(miso: nat -> Byte)
      ensures this.miso == miso && isOpen
      ensures controls == [] && exchanges == [] && clocked == 0
    {
      this.miso := miso;
      isOpen := true;
      controls := [];
      exchanges := [];
      clocked := 0;
    }

    /** write_u8 / write_u32: one configuration ioctl. */
    method WriteControl(request: int, value: int) returns (r: Outcome<SpiError>)
      modifies this
      ensures !old(isOpen) ==> r == Fail(DeviceClosed) && unchanged(this)
      ensures old(isOpen) ==> r == Pass && controls == old(controls) + [Control(request, value)]
      ensures isOpen == old(isOpen) && exchanges == old(exchanges) && clocked == old(clocked)
    {
      if !isOpen {
        return Fail(DeviceClosed);
      }
      controls := controls + [Control(request, value)];
      r := Pass;
    }

    /** The SPI_IOC_MESSAGE(1) ioctl: one byte in for every byte out, written
        into the receive buffer, whose length the record gives as |tx|. */
    method Exchange(tx: seq<Byte>, rx: array<Byte>) returns (r: Outcome<SpiError>)
      requires rx.Length == |tx|
      modifies this, rx
      ensures !old(isOpen) ==> r == Fail(DeviceClosed) && unchanged(this) && unchanged(rx)
      ensures old(isOpen) ==> r == Pass && rx[..] == Window(miso, old(clocked), |tx|)
      ensures old(isOpen) ==> exchanges == old(exchanges) + [tx] && clocked == old(clocked) + |tx|
      ensures isOpen == old(isOpen) && controls == old(controls)
    {
      if !isOpen {
        return Fail(DeviceClosed);
      }
      forall i | 0 <= i < rx.Length {
        rx[i] := miso(clocked + i);
      }
      exchanges := exchanges + [tx];
      clocked := clocked + |tx|;
      r := Pass;
    }

    method Close()
      modifies this
      ensures !isOpen
      ensures controls == old(controls) && exchanges == old(exchanges) && clocked == old(clocked)
    {
      isOpen := false;
    }
  }

  // ---------------------------------------------------------------------
  // The engine

  class HardwareSpi {
    const polarity: int
    const phase: int
    const wordSize: nat
    const lsbFirst: bool
    const speedHz: nat
    const mode: bv8
    const device: SpiDevice

    /** initialize: builds the mode byte bit by bit, then writes the mode,
        the bit order and the speed to the freshly opened device. */
    constructor (device: SpiDevice, polarity: int := 0, phase: int := 0, wordSize: nat := 8, lsbFirst: bool := false)
      requires device.isOpen
      modifies device
      ensures this.device == device && this.polarity == polarity && this.phase == phase
      ensures this.wordSize == wordSize && this.lsbFirst == lsbFirst && speedHz == DEFAULT_SPEED_HZ
      ensures mode == SpiMode(polarity, phase)
      ensures device.isOpen && device.exchanges == old(device.exchanges) && device.clocked == old(device.clocked)
      ensures device.controls == old(device.controls) + [
        Control(SPI_IOC_WR_MODE, mode as int),
        Control(SPI_IOC_WR_LSB_FIRST, if lsbFirst then 1 else 0),
        Control(SPI_IOC_WR_MAX_SPEED_HZ, DEFAULT_SPEED_HZ)]
    {
      this.polarity := polarity;
      this.phase := phase;
      this.wordSize := wordSize;
      this.lsbFirst := lsbFirst;
      speedHz := DEFAULT_SPEED_HZ;
      this.device := device;
      var m: bv8 := 0;
      if phase == 1 {
        m := m | SPI_CPHA;
      }
      if polarity == 1 {
        m := m | SPI_CPOL;
      }
      mode := m;
      new;
      var wroteMode := device.WriteControl(SPI_IOC_WR_MODE, m as int);
      var wroteOrder := device.WriteControl(SPI_IOC_WR_LSB_FIRST, if lsbFirst then 1 else 0);
      var wroteSpeed := device.WriteControl(SPI_IOC_WR_MAX_SPEED_HZ, DEFAULT_SPEED_HZ);
    }

    method Close()
      modifies device
      ensures !device.isOpen
      ensures device.controls == old(device.controls) && device.exchanges == old(device.exchanges)
      ensures device.clocked == old(device.clocked)
    {
      device.Close();
    }

    /** transfer_bytes: refuses more than 64 bytes; otherwise exchanges them
        through a zero-filled receive buffer of the same length and returns
        what the buffer then holds. */
    method TransferBytes(bytes: seq<int> := []) returns (r: Result<seq<Byte>, SpiError>)
      modifies device
      ensures |bytes| > SPI_MAX_CHUNK_BYTES ==> r == Err(TooManyBytes(|bytes|))
      ensures |bytes| <= SPI_MAX_CHUNK_BYTES ==> (r.Ok? <==> old(device.isOpen))
      ensures |bytes| <= SPI_MAX_CHUNK_BYTES && r.Err? ==> r.error == DeviceClosed
      ensures r.Err? ==> unchanged(device)
      ensures r.Ok? ==>
        r.value == Window(device.miso, old(device.clocked), |bytes|) &&
        device.exchanges == old(device.exchanges) + [ToBytes(bytes)] &&
        device.clocked == old(device.clocked) + |bytes|
      ensures device.isOpen == old(device.isOpen) && device.controls == old(device.controls)
    {
      if |bytes| > SPI_MAX_CHUNK_BYTES {
        return Err(TooManyBytes(|bytes|));
      }
      var tx := ToBytes(bytes);
      var rx := new Byte[|bytes|](_ => 0);
      var outcome := device.Exchange(tx, rx);
      if outcome.Fail? {
        return Err(outcome.error);
      }
      r := Ok(rx[..]);
    }

    /** transfer_data: packs the words, sends the bytes chunk by chunk in
        order, and concatenates what each chunk brought back. */
    method TransferData(words: seq<int> := []) returns (r: Result<seq<Byte>, SpiError>)
      modifies device
      ensures var sent := PackedBytes(words, wordSize);
        if old(device.isOpen) || sent == [] then
          r.Ok? && |r.value| == |sent| &&
          r.value == Window(device.miso, old(device.clocked), |sent|) &&
          device.exchanges == old(device.exchanges) + Chunks(sent) &&
          device.clocked == old(device.clocked) + |sent|
        else
          r == Err(DeviceClosed) && device.exchanges == old(device.exchanges) && device.clocked == old(device.clocked)
      ensures device.isOpen == old(device.isOpen) && device.controls == old(device.controls)
    {
      var bytes := PackWordsIntoBytes(words, wordSize);
      r := SendChunks(bytes);
    }

    /** The each_slice loop of transfer_data over the packed bytes. */
    method SendChunks(bytes: seq<Byte>) returns (r: Result<seq<Byte>, SpiError>)
      modifies device
      ensures old(device.isOpen) || bytes == [] ==>
        r.Ok? && r.value == Window(device.miso, old(device.clocked), |bytes|) &&
        device.exchanges == old(device.exchanges) + Chunks(bytes) &&
        device.clocked == old(device.clocked) + |bytes|
      ensures !old(device.isOpen) && bytes != [] ==>
        r == Err(DeviceClosed) && device.exchanges == old(device.exchanges) && device.clocked == old(device.clocked)
      ensures device.isOpen == old(device.isOpen) && device.controls == old(device.controls)
    {
      var dev := device;
      var result: seq<Byte> := [];
      ghost var sent: seq<seq<Byte>> := [];
      var i := 0;
      while i < |bytes|
        invariant 0 <= i <= |bytes|
        invariant sent + Chunks(bytes[i..]) == Chunks(bytes)
        invariant dev.exchanges == old(dev.exchanges) + sent
        invariant result == Window(dev.miso, old(dev.clocked), i)
        invariant dev.clocked == old(dev.clocked) + i
        invariant dev.isOpen == old(dev.isOpen) && dev.controls == old(dev.controls)
        invariant i == 0 ==> sent == []
        invariant !old(dev.isOpen) ==> i == 0
      {
        var end := if i + SPI_MAX_CHUNK_BYTES <= |bytes| then i + SPI_MAX_CHUNK_BYTES else |bytes|;
        var chunk := bytes[i..end];
        assert |chunk| == end - i <= SPI_MAX_CHUNK_BYTES;
        NextChunk(bytes, i, end);
        assert (sent + [chunk]) + Chunks(bytes[end..]) == Chunks(bytes);
        var received := TransferBytes(chunk);
        if received.Err? {
          assert sent == [];
          return received;
        }
        ToBytesOfBytes(chunk);
        assert received.value == Window(dev.miso, old(dev.clocked) + i, |chunk|);
        WindowSplit(dev.miso, old(dev.clocked), i, |chunk|);
        assert result + received.value == Window(dev.miso, old(dev.clocked), end);
        assert dev.exchanges == old(dev.exchanges) + (sent + [chunk]);
        result := result + received.value;
        sent := sent + [chunk];
        i := end;
      }
      r := Ok(result);
    }
  }
}
