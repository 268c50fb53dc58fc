/** What image-to-binary.py does with one file argument (lines 74-130), given the
    switches in force, the names that already exist, and what PIL made of the file. */
module Convert {
  import opened PyIo
  import RawExtract
  import opened Naming
  import Options

  /** How the handling of one file ends. */
  datatype Outcome =
    | Ignored                                        // lines 76-80: PIL could not open it
    | NoExtension                                    // line 81: `rindex` raised, the run stops
    | BmpKept(bmpName: string)                       // lines 89-92: `-b`, the `.bmp` is the result
    | RawDone(rawName: string, contents: seq<byte>)  // lines 96-130: `.raw` written, `.bmp` removed
    | RawRaised(bmpName: string, rawName: string)    // line 117 raised: the run stops, `.raw` empty

  /** `name` is `base`, then any suffix, then `ext`. */
  predicate Named(name: string, base: string, ext: string)
  {
    |base| + |ext| <= |name| && name[..|base|] == base && name[|name| - |ext|..] == ext
  }

  /** Whether handling `filename` raises and so ends the run: line 81 when the name has
      no '.', line 117 when the raw output is asked for and the offset byte is below 10. */
  predicate Raises(filename: string, flags: Options.Flags, decoded: Option<seq<byte>>)
  {
    decoded.Some? &&
    ('.' !in filename || (flags.raw && RawExtract.Extract(decoded.value, flags.noAlpha).Err?))
  }

  /** Handles the file argument `filename`. `decoded` is None when `Image.open` fails and
      otherwise holds the BMP bytes `img.save` writes; `existing` is the set of names that
      exist beforehand. */
  method ConvertFile(filename: string, flags: Options.Flags, existing: set<string>,
                     decoded: Option<seq<byte>>) returns (o: Outcome)
    ensures decoded.None? ==> o == Ignored
    ensures decoded.Some? ==> (o == NoExtension <==> '.' !in filename)
    ensures decoded.Some? && '.' in filename ==> (o.BmpKept? <==> !flags.raw)
    ensures o.BmpKept? ==>
      o.bmpName !in existing && Named(o.bmpName, StripExtension(filename).value, ".bmp")
    ensures decoded.Some? && '.' in filename ==>
      (o.RawRaised? <==> flags.raw && RawExtract.Extract(decoded.value, flags.noAlpha).Err?)
    ensures o.RawDone? ==>
      o.rawName !in existing && Named(o.rawName, StripExtension(filename).value, ".raw")
    ensures o.RawRaised? ==>
      o.bmpName !in existing && Named(o.bmpName, StripExtension(filename).value, ".bmp")
    ensures o.RawRaised? ==>
      o.rawName !in existing && o.rawName != o.bmpName &&
      Named(o.rawName, StripExtension(filename).value, ".raw")
    ensures (o.NoExtension? || o.RawRaised?) <==> Raises(filename, flags, decoded)
    ensures o.RawDone? ==> Ok(o.contents) == RawExtract.Extract(decoded.value, flags.noAlpha)
  {
    if decoded.None? {
      return Ignored;
    }
    var stripped := StripExtension(filename);
    if stripped.None? {
      return NoExtension;
    }
    var base := stripped.value;
    var bmpSuffix := FreeSuffix(base, ".bmp", existing);
    var bmpName := base + bmpSuffix + ".bmp";
    if !flags.raw {
      return BmpKept(bmpName);
    }
    var rawSuffix := FreeSuffix(base, ".raw", existing + {bmpName});
    var rawName := base + rawSuffix + ".raw";
    var extracted := RawExtract.ExtractRaw(decoded.value, flags.noAlpha);
    if extracted.Err? {
      return RawRaised(bmpName, rawName);
    }
    o := RawDone(rawName, extracted.value);
  }
}
