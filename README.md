# image-to-binary: raw pixel extraction, option parsing and output naming

A Dafny model of the core of `Sources/image-to-binary.py`, a script that converts
image files to BMP with PIL and then, by default, strips the BMP header to leave a
headerless `.raw` pixel file. The model covers the parts of the script that are
exact byte and string logic:

- **RawExtract** (lines 115-125): the `.bmp` that PIL has written is read through a
  cursor. Ten bytes are discarded. One byte, at index 10, is taken as the pixel-array
  offset. That byte is only the low byte of the 32-bit little-endian `bfOffBits` field of
  BITMAPFILEHEADER. `offset - 11` more bytes are skipped. The rest is copied byte by byte.
  Under `--no-alpha` a counter drops every fourth byte, whatever the bit depth.
  `ExtractRaw` runs these steps on a cursor: `SkipHeader`, then the byte loop
  `CopyPixels` with its counter. It is proved equal to the function `Extract`, and the
  lemmas beside it say what `Extract` produces.
- **PyIo**: the two files as Python 3 buffered binary files. `Reader.Read(n)` follows
  `BufferedReader.read`. With `n == -1` it reads to end of file. With `n >= 0` it reads at
  most `n` bytes, and `read(0)` gives `b''`. With `n < -1` it raises ValueError
  ("read length must be non-negative or -1").
- **Options** (lines 50-73): the loop that pops `sys.argv`. Options update `no_alpha`
  and `raw`. Each file is converted with the switches as they are at that point. An
  unknown option draws a warning. `-h` prints help and exits. A conversion that raises
  (line 81 or line 117) is not caught, so it ends the run too. Whether a conversion
  raises is a parameter of the loop; `Convert.Raises` says when it does.
- **Naming** (lines 81, 84-88, 105-109): the extension is cut at the last `'.'`. An
  output name gets a `_<n>` suffix, with the least `n` that is free, when the plain name
  exists. The file system is a finite set of names that already exist.
- **Convert** (lines 74-130): one file argument end to end, composed from the above.

Behaviour worth knowing, all modelled as the code does it:

- An offset byte of 11 makes line 117 call `read(0)`. That returns `b''`, so the copy loop
  never starts and the `.raw` file is empty even when pixels follow.
- An offset byte of 10 makes line 117 call `read(-1)`. That drains the file, so the loop,
  if it starts, reads only `b''`, and the output is empty.
- An offset byte below 10 makes line 117 call `read(n)` with `n < -1`, which raises
  ValueError. So does a file of ten bytes or fewer, whose offset reads as
  `int.from_bytes(b'') == 0`. The exception is not caught, so the run stops and the `.raw`
  file created at line 111 stays empty. `Extract` returns `Err(NegativeReadLength)` here.
- 24-bit images are thinned by `--no-alpha` as well, and row padding is not considered.

The script reads only the low byte of the offset, never checks bits per pixel, and has
no greyscale, black/white or RGB565 transform.

## Model

| member | source | states |
|---|---|---|
| PyIo.Reader.Read | Sources/image-to-binary.py:115-117 | `read(n)` moves the cursor to end of file for -1, by at most n for n >= 0, and raises without moving for n < -1; it returns exactly the bytes passed over |
| PyIo.Writer.Write | Sources/image-to-binary.py:124 | `write(b)` appends b to the `.raw` file; `b''` leaves it unchanged |
| RawExtract.SkipHeader | Sources/image-to-binary.py:115-117 | the cursor ends at `min(11, len)` when the offset byte is below 10 (and the read raises), at end of file when it is 10, and at `min(offset, len)` otherwise; the first `byte` is exactly the file from `min(11, len)` to the cursor; it raises iff the offset byte is below 10; the first `byte` is `b''` iff the offset is 11 or the file ends by index 11 |
| RawExtract.CopyPixels | Sources/image-to-binary.py:118-125 | when the first `byte` is not `b''`, the loop reads to end of file and the fresh `.raw` file ends up holding the thinned bytes from the cursor on; otherwise nothing is read or written; the counter stays in 0..3 under no-alpha (loop invariant) |
| RawExtract.ExtractRaw | Sources/image-to-binary.py:115-125 | opening the `.bmp`, skipping the header and running the copy loop write exactly `Extract(file, noAlpha)`, or raise exactly when `Extract` is an error |
| RawExtract.KeptBytesLength | Sources/image-to-binary.py:118-125 | the no-alpha counter keeps `n - n / 4` of n walked bytes |
| RawExtract.KeptBytesAt | Sources/image-to-binary.py:121-125 | the j-th kept byte is the walked byte at position `j + j / 3`, which is not 3 mod 4 |
| RawExtract.KeptBytesHas | Sources/image-to-binary.py:121-125 | every walked byte at a position i that is not 3 mod 4 is kept, at output position `i - i / 4` |
| RawExtract.ExtractEmpty | Sources/image-to-binary.py:116-119 | extraction raises iff the offset byte is below 10; with an offset byte of at most 11, or no byte past index 11, the `.raw` file is empty |
| RawExtract.ExtractWithAlpha | Sources/image-to-binary.py:119-125 | with `-a` and an offset byte above 11, the output is the file from the offset on, byte for byte |
| RawExtract.ExtractNoAlphaAt | Sources/image-to-binary.py:115-125 | without alpha, output byte j is file byte `offset + j + j / 3`, inside the pixel region and never below the offset |
| RawExtract.ExtractNoAlphaHas | Sources/image-to-binary.py:118-125 | without alpha, every pixel-region byte whose region position is not 3 mod 4 is in the output, in order |
| RawExtract.ExtractLength | Sources/image-to-binary.py:118-125 | the output has `n - n / 4` bytes without alpha and `n` with it, n being the pixel-region length |
| RawExtract.ExtractIgnoresHeader | Sources/image-to-binary.py:115-117 | the output depends on the header only through the file length and byte 10 |
| Options.ParseArguments | Sources/image-to-binary.py:50-74 | the pop-and-update loop performs exactly the actions `Run(argv, raises)`: nothing to do without arguments, otherwise the actions from the defaults `raw = no_alpha = True`, ending after help or after a conversion that raises |
| Options.ActionsSplit | Sources/image-to-binary.py:56-74 | when the loop runs through a prefix of the arguments (no help, no conversion that raises), the prefix yields its own actions and passes its switches on to the rest |
| Options.FileUsesPrecedingFlags | Sources/image-to-binary.py:56-74 | a file argument the loop reaches is converted with exactly the switches set by the arguments before it, and nothing follows it if that conversion raises |
| Options.FlagsAfterNoSwitch | Sources/image-to-binary.py:53-54 | arguments that set no switch leave the switches as they were, so files before any switch get the defaults |
| Options.LastAlphaOptionWins | Sources/image-to-binary.py:59-62 | the last `-a`/`--alpha`/`-n`/`--no-alpha` decides `no_alpha` |
| Options.LastRawOptionWins | Sources/image-to-binary.py:63-66 | the last `-b`/`--bmp`/`-r`/`--raw` decides `raw` |
| Options.UnknownOptionKeepsFlags | Sources/image-to-binary.py:70-72 | an unknown option leaves the switches as if it were absent |
| Options.HelpStops | Sources/image-to-binary.py:67-69 | after help no argument is handled, and when the loop reaches help it is the last action |
| Options.RaiseStops | Sources/image-to-binary.py:56-81 | after a conversion that raises no argument is handled, and when the loop reaches it that conversion is the last action |
| Naming.LastIndexOf | Sources/image-to-binary.py:81 | `rindex` finds a position holding the character with none after it, and fails iff the character is absent |
| Naming.StripExtension | Sources/image-to-binary.py:81 | the stripped name is the prefix before the last '.', and the strip fails (ValueError) iff there is no '.' |
| Naming.DecimalRoundTrip | Sources/image-to-binary.py:88 | reading the digits of `str(n)` gives back n, so distinct numbers make distinct suffixes |
| Naming.NumberedBound | Sources/image-to-binary.py:86-87 | if the candidates `_0`..`_n` all exist there are more than n existing names, so the search ends |
| Naming.FreeSuffix | Sources/image-to-binary.py:84-88 | the chosen name is not taken; the suffix is empty iff `base.ext` is free, else `_n` for the least free n (the same loop at lines 105-109 names the `.raw`) |
| Convert.ConvertFile | Sources/image-to-binary.py:74-130 | a file PIL cannot open is skipped; a name without '.' stops the run; with `-b` a fresh `.bmp` is kept; otherwise a fresh `.raw`, named apart from the `.bmp`, holds `Extract(bmp, no_alpha)`, or the run stops when that raises; the run stops exactly when `Convert.Raises` holds |

## Left out

- PIL's `Image.open` and `img.save` (lines 76, 89): a foreign image decoder and BMP writer. `ConvertFile` takes their result as a parameter: None when opening fails, else the BMP bytes that would be saved.
- File-system calls `os.path.isfile`, `open`, `os.remove` (lines 84, 99, 105, 111, 128-129): existence is a finite set of names, the two files are in-memory streams, and the removal of the `.bmp` after extraction is not tracked.
- The batch as a whole: the model does not thread the set of existing names from one `Convert` action to the next, because that set is file-system state changed by I/O.
- Errors from saving, opening or creating files (lines 93-95, 100-102, 112-114): each ends that file's handling with a message; the model has no such failures.
- Console colouring, the help text and `sys.exit` (lines 21-46, 69, 131): output only; help is the `ShowHelp` action.
- The `greyscale` variable (line 55) is set and never used.
- Convert.ConvertFile: states the output names by base, extension and freshness, not the exact suffix; `FreeSuffix` states the exact suffix.
