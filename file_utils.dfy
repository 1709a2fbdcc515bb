// File-name and magic-number classification of src/file_utils.c.
//
// `is_valid_expression` looks at the suffix that starts at the last '.' of a
// name. `file_format` opens the file, reads its first eight bytes and compares
// them with the JPEG start-of-image marker followed by the first byte of a
// marker (FF D8 FF; ITU-T T.81, Annex B, Table B.1) and with the eight-byte
// PNG signature (section 5.2 of the PNG Specification, ISO/IEC 15948). The
// opening and reading are I/O: the model takes whether the file could be
// opened and the eight bytes it holds at the start.
module FileUtils {
  import opened Raster

  // ---- is_valid_expression -----------------------------------------------

  /** `strrchr(name, '.')`: the index of the last dot, if any. */
  function LastDot(name: seq<char>): (r: Option<nat>)
    ensures r.None? <==> '.' !in name
    ensures r.Some? ==> r.value < |name| && name[r.value] == '.'
    ensures r.Some? ==> forall k | r.value < k < |name| :: name[k] != '.'
  {
    if |name| == 0 then None
    else if name[|name| - 1] == '.' then Some(|name| - 1)
    else
      var r := LastDot(name[..|name| - 1]);
      assert name == name[..|name| - 1] + [name[|name| - 1]];
      r
  }

  /** The suffix from the last dot on, dot included, if the name has a dot. */
  function Extension(name: seq<char>): (ext: Option<seq<char>>)
    ensures ext.Some? ==> |ext.value| > 0 && ext.value[0] == '.'
    ensures ext.Some? ==> forall k | 0 < k < |ext.value| :: ext.value[k] != '.'
  {
    match LastDot(name)
    case None => None
    case Some(d) => Some(name[d..])
  }

  /** The three suffixes `is_valid_expression` accepts; matching is exact and
      case-sensitive. */
  predicate SupportedExtension(ext: seq<char>)
  {
    ext == ".jpg" || ext == ".jpeg" || ext == ".png"
  }

  /** `is_valid_expression`: the name has a dot and the suffix from its last
      dot is exactly one of the supported extensions. */
  predicate IsValidExpression(name: seq<char>)
  {
    match Extension(name)
    case None => false
    case Some(ext) => SupportedExtension(ext)
  }

  predicate EndsWith(name: seq<char>, suffix: seq<char>)
  {
    |suffix| <= |name| && name[|name| - |suffix|..] == suffix
  }

  /** A name without a dot is refused. */
  lemma NoDotIsInvalid(name: seq<char>)
    requires '.' !in name
    ensures !IsValidExpression(name)
  {
  }

  /** A suffix that holds a single dot, at its start, is the name's extension
      exactly when the name ends with it. */
  lemma {:induction false} ExtensionIsSuffix(name: seq<char>, suffix: seq<char>)
    requires |suffix| > 0 && suffix[0] == '.'
    requires forall k | 0 < k < |suffix| :: suffix[k] != '.'
    ensures Extension(name) == Some(suffix) <==> EndsWith(name, suffix)
  {
    if EndsWith(name, suffix) {
      var d := |name| - |suffix|;
      assert name[d] == suffix[0];
      forall k | d < k < |name|
        ensures name[k] != '.'
      {
        assert name[k] == suffix[k - d];
      }
      var r := LastDot(name);
      assert name[d] == '.';
      assert r.value == d;
    }
  }

  /** `is_valid_expression` accepts exactly the names that end with ".jpg",
      ".jpeg" or ".png". */
  lemma ValidExpressionIff(name: seq<char>)
    ensures IsValidExpression(name) <==> EndsWith(name, ".jpg") || EndsWith(name, ".jpeg") || EndsWith(name, ".png")
  {
    ExtensionIsSuffix(name, ".jpg");
    ExtensionIsSuffix(name, ".jpeg");
    ExtensionIsSuffix(name, ".png");
    match Extension(name)
    case None =>
    case Some(ext) =>
      if ext == ".jpg" {
        assert EndsWith(name, ".jpg");
      } else if ext == ".jpeg" {
        assert EndsWith(name, ".jpeg");
      } else if ext == ".png" {
        assert EndsWith(name, ".png");
      } else {
        assert !EndsWith(name, ".jpg") && !EndsWith(name, ".jpeg") && !EndsWith(name, ".png");
      }
  }

  /** Matching is case-sensitive, and only the suffix after the last dot counts. */
  lemma ValidExpressionExamples()
    ensures IsValidExpression("photo.png") && IsValidExpression("a.b.jpeg")
    ensures !IsValidExpression("photo.PNG") && !IsValidExpression("x.png.bak") && !IsValidExpression("png")
  {
    ValidExpressionIff("photo.png");
    ValidExpressionIff("a.b.jpeg");
    ValidExpressionIff("photo.PNG");
    ValidExpressionIff("x.png.bak");
    ValidExpressionIff("png");
  }

  // ---- file_format -------------------------------------------------------

  datatype Format = Jpeg | Png | Unknown

  /** The eight-byte PNG signature, "\x89PNG\r\n\x1a\n". */
  const PngSignature: seq<Byte> := [0x89, 0x50, 0x4E, 0x47, 0x0D, 0x0A, 0x1A, 0x0A]

  /** The start of every JPEG file: the SOI marker FF D8 and the FF of the next marker. */
  predicate JpegStart(header: seq<Byte>)
    requires |header| == 8
  {
    header[0] == 0xFF && header[1] == 0xD8 && header[2] == 0xFF
  }

  /** The classification `file_format` makes of the eight bytes it read: the
      JPEG test first, then the PNG signature, and "Unknown" otherwise. */
  function Classify(header: seq<Byte>): (f: Format)
    requires |header| == 8
    ensures f == Jpeg <==> JpegStart(header)
    ensures f == Png <==> header == PngSignature
    ensures f == Unknown <==> !JpegStart(header) && header != PngSignature
  {
    if JpegStart(header) then Jpeg
    else if header == PngSignature then Png
    else Unknown
  }

  /** `file_format`: a file that cannot be opened is "Unknown"; otherwise the
      classification of its first eight bytes. */
  function FileFormat(canOpen: bool, header: seq<Byte>): (f: Format)
    requires |header| == 8
    ensures f == Jpeg <==> canOpen && JpegStart(header)
    ensures f == Png <==> canOpen && header == PngSignature
    ensures f == Unknown <==> !canOpen || (!JpegStart(header) && header != PngSignature)
  {
    if !canOpen then Unknown else Classify(header)
  }

  /** The two signatures cannot both match, so the order of the tests only
      matters in that JPEG is asked first. */
  lemma SignaturesDisjoint(header: seq<Byte>)
    requires |header| == 8
    ensures !(JpegStart(header) && header == PngSignature)
  {
  }
}
