# chip-gpio in Dafny

A model of the core of `chip-gpio`, a Ruby library that drives the GPIO
lines and the SPI bus of the C.H.I.P. single-board computer. The model has
three parts:

- **GPIO pins** (`gpio.dfy`, module `Gpio`).
  - A `Pin` is a handle on the sysfs directory `/sys/class/gpio/gpioN`.
  - The part of the file system the library touches is the abstract state
    `Sysfs`: the exported lines, the text of every `direction` and `value`
    file, and the log of value writes.
  - Direction text is decoded to `Input`/`Output`. A value file's text is
    parsed as its first run of decimal digits.
  - The kernel version is classified from what `/proc/version` gave, with
    `V4_4` as the fallback.
  - `GetPins` builds the board's name-to-line table (CSI0–7 and XIO0–7)
    with the two `each_with_index` loops of `get_pins`.
- **The kernel SPI controller path** (`hardware_spi.dfy`, module
  `HardwareSpiBus`).
  - The mode byte is built from polarity and phase.
  - Words are broken into nibbles, most significant first. The nibbles are
    paired into bytes, and an odd trailing nibble is dropped.
  - The bytes go out in chunks of at most 64. Each chunk is one
    full-duplex exchange with the spidev device.
  - The device is abstract state: what it was asked to do, and an
    arbitrary function for the bytes the peripheral shifts back.
- **The bit-banged SPI writer** (`soft_spi.dfy`, module `SoftSpiBus`).
  - `Create` is `initialize`, step by step: the argument checks, the
    lookups in the pin table, the exports, then each pin set to output and
    to 0.
  - `SoftSpi.Write` is `write`: its loops make value-file writes through
    the pins. Those writes are proved equal to the pure trace `WriteTrace`.
    `WriteTraceAt` states the shape of that trace.
- `basics.dfy` (module `Basics`) holds `Option`, `Result`, `Outcome`,
  `Pow` and the product step `MulStep`.

Ruby's `throw` and `raise` become `Err`/`Fail` values. The state-changing
parts are Dafny classes and methods over the abstract state. The pure
decoding is functions. The keyword defaults of the Ruby methods are the
default values of the Dafny parameters: `write(words: [], reverse_output:
true)`, `initialize`'s absent pin names with polarity 1, phase 0 and word
size 8, the hardware bus's polarity 0, phase 0, word size 8 and
`lsb_first: false`, and the empty lists of `transfer_bytes` and
`transfer_data`.

## Model

| member | source | states |
|---|---|---|
| Gpio.Strip | lib/chip-gpio/Pin.rb:24 | `String#strip`: the result is a piece of the input with only whitespace removed at either end, and it neither starts nor ends with whitespace |
| Gpio.DigitsValue | lib/chip-gpio/Pin.rb:57 | `to_i` on a run of n decimal digits: the number is below 10^n |
| Gpio.NatToString | lib/chip-gpio/Pin.rb:63-64 | the decimal text `to_s` writes: a non-empty run of digits with no leading zero whose value is the number |
| Gpio.IntToString | lib/chip-gpio/Pin.rb:63 | `to_s` on an integer: never empty, and it starts with a minus sign exactly when the number is negative; what follows the optional sign is the decimal text (`NatToString`) of the number's magnitude |
| Gpio.DirectionText | lib/chip-gpio/Pin.rb:36-40 | the text `direction=` writes is "in" or "out", and it is "in" exactly for `:input` |
| Gpio.DirectionOfSymbol | lib/chip-gpio/Pin.rb:36-43 | the `case d`: `:input` gives input and `:output` gives output, in both directions of each iff; every other symbol gives none, the case that raises |
| Gpio.DecodeDirection | lib/chip-gpio/Pin.rb:23-33 | the stripped text "in" gives `Input` and "out" gives `Output`, in both directions of the iff; any other text is the error naming that text |
| Gpio.DirectionRoundTrip | lib/chip-gpio/Pin.rb:23-46 | what `direction=` writes for a direction (also with a trailing newline) reads back through `direction` as that direction |
| Gpio.DigitRun | lib/chip-gpio/Pin.rb:53-57 | the regex `\d+`: None exactly when no digit follows `from`; otherwise the leftmost maximal run of digits |
| Gpio.ParseValue | lib/chip-gpio/Pin.rb:51-57 | text without any digit reads as 0 |
| Gpio.ValueRoundTrip | lib/chip-gpio/Pin.rb:51-64 | the decimal text `value=` writes for v (also with a trailing newline) reads back through `value` as v, or as -v for negative v since the minus sign is not a digit |
| Gpio.Pin.Available | lib/chip-gpio/Pin.rb:11-13 | `available?`: in a consistent file tree it holds exactly when the line's value file exists |
| Gpio.Pin.Export | lib/chip-gpio/Pin.rb:15-17 | exporting creates the line's files with the kernel's initial text and changes nothing else; the kernel refuses a line that is already exported |
| Gpio.Pin.Unexport | lib/chip-gpio/Pin.rb:19-21 | unexporting removes the line's files and changes nothing else; the kernel refuses a line that is not exported |
| Gpio.Pin.Direction | lib/chip-gpio/Pin.rb:23-33 | a line that is not exported has no direction file; otherwise the result is the decode of its text |
| Gpio.Pin.SetDirection | lib/chip-gpio/Pin.rb:35-46 | a symbol other than :input and :output raises before any file access; otherwise "in" or "out" is written, and the pin then reads back that direction; no other file changes |
| Gpio.Pin.Value | lib/chip-gpio/Pin.rb:48-58 | a line that is not available raises before any read; otherwise the result is the parse of the value file |
| Gpio.Pin.SetValue | lib/chip-gpio/Pin.rb:60-65 | a line that is not available raises and nothing changes; otherwise the decimal text of v is written, the write is logged, and `Value()` then reads back v with its sign dropped |
| Gpio.ParseVersion | lib/chip-gpio/Pin.rb:72-92 | the begin block of `chip_version`: major "4" with minor "3" gives v4_3 and "4"/"4" gives v4_4, in both directions of each iff; everything else raises |
| Gpio.ChipVersion | lib/chip-gpio/Pin.rb:70-98 | the result is v4_3 exactly when the version read was 4.3; every other outcome, failures included, gives the default v4_4 |
| Gpio.XioGpios | lib/chip-gpio/Pin.rb:104-109 | the XIO line list of a kernel version has eight entries |
| Gpio.GpioListsAt | lib/chip-gpio/Pin.rb:103-109 | entry i of the XIO list is 408 + i on v4_3 and 1016 + i on v4_4; entry i of the CSI list is 132 + i |
| Gpio.BoardGpioAt | lib/chip-gpio/Pin.rb:100-110 | CSIi is line 132+i, and XIOi is line 408+i on v4_3 and 1016+i on v4_4 |
| Gpio.BoardTableRule | lib/chip-gpio/Pin.rb:100-117 | the board table holds exactly the names that have a line, each with its line |
| Gpio.AddLines | lib/chip-gpio/Pin.rb:113-114 | one `each_with_index` pass adds prefix0 … prefixN-1, each a pin on the list's line at that index and on the same file tree, and keeps the entries already there |
| Gpio.TwoPassesBuildTable | lib/chip-gpio/Pin.rb:111-116 | the CSI pass followed by the XIO pass yields exactly the 16 board names, each on its line |
| Gpio.GetPins | lib/chip-gpio/Pin.rb:100-117 | exactly 16 entries: the CSI and XIO names of the running kernel's version, each mapped to a pin on its line |
| HardwareSpiBus.SpiMode | lib/chip-gpio/HardwareSpi.rb:25-39 | the mode is at most 3; its CPHA bit is set exactly when phase is 1 and its CPOL bit exactly when polarity is 1 |
| HardwareSpiBus.HardwareSpi.constructor | lib/chip-gpio/HardwareSpi.rb:28-45 | the mode is built from polarity and phase; mode, bit order and speed are sent to the device in that order; nothing is exchanged |
| HardwareSpiBus.HardwareSpi.Close | lib/chip-gpio/HardwareSpi.rb:47-49 | the device is closed and nothing else about it changes |
| HardwareSpiBus.Nibble | lib/chip-gpio/HardwareSpi.rb:87 | `(w >> 4i) & 0xf` lies in 0..15 |
| HardwareSpiBus.WordNibbles | lib/chip-gpio/HardwareSpi.rb:86-88 | one word gives `count` nibbles, the most significant first |
| HardwareSpiBus.NibbleStream | lib/chip-gpio/HardwareSpi.rb:73-90 | the words give `word_size / 4` nibbles each, every one in 0..15 |
| HardwareSpiBus.NibbleStreamAt | lib/chip-gpio/HardwareSpi.rb:73-90 | nibble j of word k sits at position k * count + j of the stream and is that word's nibble count-1-j |
| HardwareSpiBus.BreakWordsIntoNibbles | lib/chip-gpio/HardwareSpi.rb:73-90 | the nested loop yields exactly the nibble stream of the words |
| HardwareSpiBus.NibblesIgnoreHighBits | lib/chip-gpio/HardwareSpi.rb:86-88 | bits of a word above its top nibble do not change its nibbles |
| HardwareSpiBus.PairNibbles | lib/chip-gpio/HardwareSpi.rb:99-110 | half as many bytes as nibbles, rounded down; byte k is nibble 2k times 16 plus nibble 2k+1 |
| HardwareSpiBus.PackedBytes | lib/chip-gpio/HardwareSpi.rb:92-113 | `len(words) * (word_size / 4) / 2` bytes, each in 0..255 |
| HardwareSpiBus.PackedByteAt | lib/chip-gpio/HardwareSpi.rb:100-109 | byte k of the packed output is `(nibble[2k] << 4) \| nibble[2k+1]` of the nibble stream |
| HardwareSpiBus.TrailingNibbleDropped | lib/chip-gpio/HardwareSpi.rb:100-110 | an odd last nibble is dropped: packing gives what the stream without it gives |
| HardwareSpiBus.PackWordsIntoBytes | lib/chip-gpio/HardwareSpi.rb:92-113 | the loop over `current_byte`/`new_byte` yields exactly the packed bytes |
| HardwareSpiBus.PackEightBitWords | lib/chip-gpio/HardwareSpi.rb:92-113 | with 8-bit words, N words give N bytes and byte i is `words[i] & 0xff` |
| HardwareSpiBus.PackFourBitWords | lib/chip-gpio/HardwareSpi.rb:92-113 | with 4-bit words, byte i is word 2i's low nibble above word 2i+1's low nibble |
| HardwareSpiBus.PackFourBitExample | lib/chip-gpio/HardwareSpi.rb:92-113 | with 4-bit words, [a, b, c, d] packs to [ab, cd] and a single nibble packs to [] |
| HardwareSpiBus.Chunks | lib/chip-gpio/HardwareSpi.rb:152 | `each_slice(64)`: no chunks exactly for no bytes |
| HardwareSpiBus.ChunksCover | lib/chip-gpio/HardwareSpi.rb:152 | the chunks concatenate, in order, to the bytes; each is non-empty and at most 64 long, and all but the last are exactly 64 long |
| HardwareSpiBus.ChunkCount | lib/chip-gpio/HardwareSpi.rb:152 | there are ceil(N/64) chunks, and the last holds what is left over |
| HardwareSpiBus.ToBytesOfBytes | lib/chip-gpio/HardwareSpi.rb:120 | packing with "C*" leaves bytes already in 0..255 unchanged, so the packed words go out as they are |
| HardwareSpiBus.WindowSplit | lib/chip-gpio/HardwareSpi.rb:150-156 | the bytes shifted back during m byte times followed by those of the next n byte times are the bytes of all m + n, so the chunk responses concatenate to one run |
| HardwareSpiBus.SpiDevice.Exchange | lib/chip-gpio/HardwareSpi.rb:120-143 | a full-duplex transfer fills the receive buffer with as many bytes as were sent and records the exchange; a closed device fails and changes nothing |
| HardwareSpiBus.SpiDevice.WriteControl | lib/chip-gpio/HardwareSpi.rb:57-71 | a configuration write is recorded on an open device; a closed one fails and changes nothing |
| HardwareSpiBus.HardwareSpi.TransferBytes | lib/chip-gpio/HardwareSpi.rb:115-144 | more than 64 bytes raise before any exchange; otherwise the bytes are exchanged once and exactly as many bytes come back |
| HardwareSpiBus.HardwareSpi.SendChunks | lib/chip-gpio/HardwareSpi.rb:150-156 | the `each_slice` loop: the exchanges are the chunks in order, and the result is everything that came back, as long as the bytes |
| HardwareSpiBus.HardwareSpi.TransferData | lib/chip-gpio/HardwareSpi.rb:146-157 | the packed bytes go out as ceil(N/64) chunk exchanges in order, and the result is as long as the packed bytes |
| SoftSpiBus.CheckArguments | lib/chip-gpio/SoftSpi.rb:32-36 | passes exactly when a clock pin, a data pin, a binary polarity and a binary phase are given; otherwise raises `ArgumentError`; a missing clock is reported before a missing data pin, and that before any other check |
| SoftSpiBus.Clamp | lib/chip-gpio/SoftSpi.rb:80-81 | the word sent lies in 0..max_word: the word itself when it is in range, else 0 or max_word |
| SoftSpiBus.MaxWord | lib/chip-gpio/SoftSpi.rb:65-67 | `max_word` lies in 0..2^word_size - 1 and is one less than 2^word_size |
| SoftSpiBus.Bit | lib/chip-gpio/SoftSpi.rb:86-90 | the test `(w & (1 << b)) > 0` gives the value 0 or 1 written to the output line |
| SoftSpiBus.SoftSpi.ClampWord | lib/chip-gpio/SoftSpi.rb:80-81 | the two reassignments of w give the clamped word |
| SoftSpiBus.MaxWordAllOnes | lib/chip-gpio/SoftSpi.rb:65-67 | `max_word`, 2^word_size - 1, has every one of its word_size bits set |
| SoftSpiBus.SentBitsEncodeWord | lib/chip-gpio/SoftSpi.rb:80-93 | the word_size bits sent for a word are the binary digits of the clamped word: they recompose to it |
| SoftSpiBus.Reverse | lib/chip-gpio/SoftSpi.rb:74-77 | `reverse`: same length, element i is element n-1-i of the input |
| SoftSpiBus.BitOrder | lib/chip-gpio/SoftSpi.rb:72-77 | the bits go out from 0 up to word_size-1, or from word_size-1 down to 0 when the output is reversed |
| SoftSpiBus.BitsTrace | lib/chip-gpio/SoftSpi.rb:83-93 | the bit loop of one word makes three writes per bit |
| SoftSpiBus.WordTrace | lib/chip-gpio/SoftSpi.rb:79-96 | one word makes three writes per bit plus the clock back to rest |
| SoftSpiBus.WordsTrace | lib/chip-gpio/SoftSpi.rb:79-96 | the word loop writes nothing exactly when there are no words |
| SoftSpiBus.WriteTrace | lib/chip-gpio/SoftSpi.rb:69-97 | a write writes nothing exactly when it is given no words, `words: []` being the default |
| SoftSpiBus.WordsTraceLength | lib/chip-gpio/SoftSpi.rb:79-96 | each word contributes 3 writes per bit plus one |
| SoftSpiBus.WriteTraceAt | lib/chip-gpio/SoftSpi.rb:69-97 | for word k (counted from the end when reversed) and bit j: the clock at rest, then that bit of the clamped word on the output line, then the clock active; the word's block ends with the clock at rest |
| SoftSpiBus.WordsTraceLines | lib/chip-gpio/SoftSpi.rb:83-95 | only the clock (at its two levels) and the output line (with 0 or 1) are written; the input line never is |
| SoftSpiBus.WriteTraceEndsAtRest | lib/chip-gpio/SoftSpi.rb:95 | a write of at least one word ends with the clock at rest |
| SoftSpiBus.AvailablePrefix | lib/chip-gpio/Pin.rb:61 | the writes before the first one to a line that is not exported; `value=` raises at that one |
| SoftSpiBus.SoftSpi.Write | lib/chip-gpio/SoftSpi.rb:69-97 | without an output pin it raises and writes nothing; otherwise its value-file writes are `WriteTrace` up to the first write to a line that is not exported, where it raises; it passes exactly when the whole trace was written; after a write of at least one word the clock reads back at rest |
| SoftSpiBus.SoftSpi.WriteWords | lib/chip-gpio/SoftSpi.rb:79-96 | the word loop makes exactly the writes of the words' trace, up to the first one that raises |
| SoftSpiBus.SoftSpi.ClockLeftAtRest | lib/chip-gpio/SoftSpi.rb:95 | after a trace that ends with the clock at rest, the clock pin reads back 1 - polarity |
| SoftSpiBus.SoftSpi.WriteWord | lib/chip-gpio/SoftSpi.rb:79-96 | one word: the bits of the clamped word, then the clock to rest; on a failure, the writes stop at the first one to a line that is not exported |
| SoftSpiBus.SoftSpi.WriteBits | lib/chip-gpio/SoftSpi.rb:83-93 | the bit loop of one word makes exactly the writes of its bits' trace, up to the first one that raises |
| SoftSpiBus.SoftSpi.WriteBit | lib/chip-gpio/SoftSpi.rb:84-92 | one bit: the clock to rest, the bit on the output line, the clock active; on a failure, the writes stop at the first one to a line that is not exported |
| SoftSpiBus.Emit | lib/chip-gpio/Pin.rb:60-65 | one `value=` inside a write: logged and visible in the value file, or a raise with nothing changed when the line is not exported |
| SoftSpiBus.KnownPrefix | lib/chip-gpio/SoftSpi.rb:44-50 | how many configured names, from the front, are on the board; the next one is not |
| SoftSpiBus.TableLinesSnoc | lib/chip-gpio/SoftSpi.rb:44-46 | looking up one more name appends that name's line to the lines looked up so far |
| SoftSpiBus.ExportIfNeeded | lib/chip-gpio/SoftSpi.rb:48-50 | `pin.export if not pin.available?`: afterwards the line is exported, and lines exported before keep their files |
| SoftSpiBus.ExportNamed | lib/chip-gpio/SoftSpi.rb:44-50 | one export line: passes exactly when the name is on the board; an unknown name raises with the earlier pins exported |
| SoftSpiBus.ExportConfigured | lib/chip-gpio/SoftSpi.rb:44-50 | the export lines stop at the first configured name the board lacks, raising for it, after exporting the pins before it; with every name known, every configured pin is exported |
| SoftSpiBus.SetDirections | lib/chip-gpio/SoftSpi.rb:52-54 | every configured pin's direction file holds "out"; every other line keeps its direction text; no value changes |
| SoftSpiBus.SetValues | lib/chip-gpio/SoftSpi.rb:56-58 | every configured pin's value file holds "0"; every other line keeps its value text; the writes are one 0 per pin in the order clock, input, output |
| SoftSpiBus.PinSetUp | lib/chip-gpio/SoftSpi.rb:52-58 | a line whose files hold "out" and "0" reads back as an output at value 0 |
| SoftSpiBus.SetUpPins | lib/chip-gpio/SoftSpi.rb:52-58 | afterwards every configured pin, the input pin included, reads back as an output at value 0, and every other line keeps its direction and value texts |
| SoftSpiBus.BoardPins | lib/chip-gpio/SoftSpi.rb:38 | `get_pins` read as a map: the pins are keyed and numbered as the board table |
| SoftSpiBus.Configure | lib/chip-gpio/SoftSpi.rb:44-62 | the pins looked up are on the table's lines; after set-up every one reads as an output at 0, and every other line keeps its texts; the only writes are one 0 per pin |
| SoftSpiBus.Create | lib/chip-gpio/SoftSpi.rb:31-63 | a failed argument check raises and touches no file; an unknown pin name raises after exporting the pins before it; otherwise the writer holds the given settings (defaults polarity 1, phase 0, word size 8), the input and output pins exist exactly when named, every configured pin reads as an output at value 0, and every other line keeps its direction and value texts |

## Left out

- The ioctl layer is not modelled: opening `/dev/spidev32766.0`, the `"P"` pointer packing, the `spi_ioc_transfer` record layout, and `read_u8`/`read_u32`. `write_u8`/`write_u32` appear only as recorded `Control` requests. The device is abstract state.
- What the peripheral shifts back is an arbitrary function `miso`. Nothing in the code constrains those bytes, only their count.
- `lsb_first` and `speed_hz` are only recorded as control requests. Their effect on the wire is outside the model.
- `test` and `to_s` in HardwareSpi.rb are debugging helpers and are not modelled.
- The regex match on `/proc/version` is not modelled. Its outcome is the input `ProcVersion`: unreadable, unmatched, or the two captured numbers.
- The `puts` logging in `chip_version`'s rescue is not modelled; only the returned version is.
- Value files are modelled as holding exactly the text last written. Any normalisation of that text by the kernel is not modelled.
- `word_size` is a `nat`. A negative word size is not modelled: there Ruby's `2**word_size` is a Rational.
- `get_pins` calls `chip_version` twice (Pin.rb:101 and Pin.rb:104). The first result goes into `v`, which is never used; only the second picks the XIO list. The model reads `/proc/version` once. It therefore leaves out only the first call's `puts` on failure.
- Timing and the clock rate of the bit-banged writer are not modelled. Neither are reads from the input pin or phase handling, which the source leaves as TODO. `phase` has no effect on the trace.
- Kernel refusals are modelled in two cases only: exporting a line that is already exported, and writing a file of a line that is not exported. Other refusals that make Ruby's `File.open`/`write` raise are not modelled: EACCES when not running as root, EINVAL for a line number the running kernel lacks (such as XIO 1016 and up after `chip_version` falls back to `:v4_4` on an older kernel), and EPERM when writing the value of an input line. `Gpio.Pin.Export`, `Gpio.Pin.SetDirection`, `Gpio.Pin.SetValue`, `SoftSpiBus.Create` and `SoftSpiBus.SoftSpi.Write` rest on this: `Create`'s success exactly when every name is known and `Write`'s pass exactly when the whole trace is written hold only for a kernel that refuses nothing else.
- Concurrency is not modelled: another process exporting or unexporting a line during a write.
- A pin name missing from the board table: Ruby looks every name up first and fails with NoMethodError on nil at the first export of a missing pin. The model returns `NoSuchPin` at that same point, after the same exports.
- Ruby's `throw` and `raise` are modelled as `Err`/`Fail` values. Exception classes and message texts are not part of any contract; `Message` gives the four `ArgumentError` texts.
- Gpio.ParseValue: its own contract states only the case with no digits. That the value is the first digit run is stated by `Gpio.DigitRun`, and the round trip by `Gpio.ValueRoundTrip`.
- Edge interrupts and callback dispatch are outside the modelled files and are not modelled.
