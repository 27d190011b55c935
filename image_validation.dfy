/** The upload validator of the prediction web app: it sniffs an image's format from the
    "magic number" at the start of its bytes, and accepts only JPEG and PNG uploads. */
module ImageValidation {
  import opened ByteSequences

  /** The formats the sniffer can report, in the order the enumeration declares them. */
  datatype ImageFormat = Bmp | Jpeg | Gif | Tiff | Png | Unknown

  // The seven signatures, exactly as the sniffer spells them (not as the format standards do).
  const BmpSignature: seq<byte> := [66, 77]              // ASCII "BM"
  const GifSignature: seq<byte> := [71, 73, 70]          // ASCII "GIF"
  const PngSignature: seq<byte> := [137, 80, 78, 71]     // first half of the 8-byte PNG signature
  const TiffSignature: seq<byte> := [73, 73, 42]         // "II" little-endian, then 42
  const Tiff2Signature: seq<byte> := [77, 77, 42]        // "MM", then 42 (no zero byte before it)
  const JpegSignature: seq<byte> := [255, 216, 255, 224]  // SOI, then an APP0 (JFIF) marker
  const Jpeg2Signature: seq<byte> := [255, 216, 255, 225] // SOI, then an APP1 (Exif) marker

  /** One test of the chain: the signature equals what Take(signature length) yields from the
      input; a short input yields fewer bytes, so it fails the test instead of faulting. */
  function SignatureMatches(signature: seq<byte>, bytes: seq<byte>): (r: bool)
    ensures r <==> StartsWith(bytes, signature)
  {
    SequenceEqual(signature, Take(bytes, |signature|))
  }

  /** One test of the chain: a signature and the format it reports. */
  datatype Signature = Signature(magic: seq<byte>, format: ImageFormat)

  /** The seven tests, in the order the chain runs them. */
  const SignatureTable: seq<Signature> := [
    Signature(BmpSignature, Bmp),
    Signature(GifSignature, Gif),
    Signature(PngSignature, Png),
    Signature(TiffSignature, Tiff),
    Signature(Tiff2Signature, Tiff),
    Signature(JpegSignature, Jpeg),
    Signature(Jpeg2Signature, Jpeg)
  ]

  /** True when the input begins with none of the seven signatures. */
  predicate NoSignature(bytes: seq<byte>)
  {
    forall k :: 0 <= k < |SignatureTable| ==> !StartsWith(bytes, SignatureTable[k].magic)
  }

  /** NoSignature, one signature at a time. */
  lemma NoSignatureOneByOne(bytes: seq<byte>)
    ensures NoSignature(bytes) <==>
      !StartsWith(bytes, BmpSignature) && !StartsWith(bytes, GifSignature) &&
      !StartsWith(bytes, PngSignature) &&
      !StartsWith(bytes, TiffSignature) && !StartsWith(bytes, Tiff2Signature) &&
      !StartsWith(bytes, JpegSignature) && !StartsWith(bytes, Jpeg2Signature)
  {
    forall k | 0 <= k < |SignatureTable|
      ensures SignatureTable[k].magic in {BmpSignature, GifSignature, PngSignature, TiffSignature,
                                          Tiff2Signature, JpegSignature, Jpeg2Signature}
    {
    }
    assert SignatureTable[0].magic == BmpSignature && SignatureTable[1].magic == GifSignature;
    assert SignatureTable[2].magic == PngSignature && SignatureTable[3].magic == TiffSignature;
    assert SignatureTable[4].magic == Tiff2Signature && SignatureTable[5].magic == JpegSignature;
    assert SignatureTable[6].magic == Jpeg2Signature;
  }

  /** The sniffer: a fixed, ordered chain of signature tests, the first that succeeds deciding.
      Each format is reported exactly when the input begins with one of its signatures, so the
      order of the chain never matters. */
  function GetImageFormat(bytes: seq<byte>): (r: ImageFormat)
    ensures r == Bmp <==> StartsWith(bytes, BmpSignature)
    ensures r == Gif <==> StartsWith(bytes, GifSignature)
    ensures r == Png <==> StartsWith(bytes, PngSignature)
    ensures r == Tiff <==> StartsWith(bytes, TiffSignature) || StartsWith(bytes, Tiff2Signature)
    ensures r == Jpeg <==> StartsWith(bytes, JpegSignature) || StartsWith(bytes, Jpeg2Signature)
    ensures r == Unknown <==> NoSignature(bytes)
  {
    NoSignatureOneByOne(bytes);
    if SignatureMatches(BmpSignature, bytes) then Bmp
    else if SignatureMatches(GifSignature, bytes) then Gif
    else if SignatureMatches(PngSignature, bytes) then Png
    else if SignatureMatches(TiffSignature, bytes) then Tiff
    else if SignatureMatches(Tiff2Signature, bytes) then Tiff
    else if SignatureMatches(JpegSignature, bytes) then Jpeg
    else if SignatureMatches(Jpeg2Signature, bytes) then Jpeg
    else Unknown
  }

  /** The upload check: only JPEG and PNG images are accepted; BMP, GIF, TIFF and anything
      unrecognised are refused. */
  function IsValidImage(image: seq<byte>): (ok: bool)
    ensures ok <==> StartsWith(image, PngSignature) ||
                    StartsWith(image, JpegSignature) || StartsWith(image, Jpeg2Signature)
    ensures ok ==> 4 <= |image|
  {
    var format := GetImageFormat(image);
    format == Jpeg || format == Png
  }

  /** An input of one byte or none begins with no signature, and no input is refused with a
      fault: every input gets a format. */
  lemma ShortInputIsUnknown(bytes: seq<byte>)
    requires |bytes| <= 1
    ensures GetImageFormat(bytes) == Unknown
    ensures !IsValidImage(bytes)
  {
  }

  /** Whether a signature of at most four bytes begins the input is settled by its first four. */
  lemma FirstFourBytesDecideOne(bytes: seq<byte>, tail: seq<byte>, signature: seq<byte>)
    requires |signature| <= 4 <= |bytes|
    ensures StartsWith(bytes + tail, signature) <==> StartsWith(bytes, signature)
    ensures StartsWith(bytes[..4], signature) <==> StartsWith(bytes, signature)
  {
  }

  /** Only the first four bytes are read: bytes appended after them never change the format. */
  lemma FirstFourBytesDecide(bytes: seq<byte>, tail: seq<byte>)
    requires 4 <= |bytes|
    ensures GetImageFormat(bytes + tail) == GetImageFormat(bytes)
    ensures GetImageFormat(bytes) == GetImageFormat(bytes[..4])
  {
    forall k | 0 <= k < |SignatureTable| {
      FirstFourBytesDecideOne(bytes, tail, SignatureTable[k].magic);
    }
    SameMatchesSameFormat(bytes + tail, bytes);
    SameMatchesSameFormat(bytes, bytes[..4]);
  }

  /** Two inputs that begin with the same signatures of the table get the same format. */
  lemma SameMatchesSameFormat(bytes: seq<byte>, other: seq<byte>)
    requires forall k :: 0 <= k < |SignatureTable| ==>
      (StartsWith(bytes, SignatureTable[k].magic) <==> StartsWith(other, SignatureTable[k].magic))
    ensures GetImageFormat(bytes) == GetImageFormat(other)
  {
    assert StartsWith(bytes, SignatureTable[0].magic) <==> StartsWith(other, SignatureTable[0].magic);
    assert StartsWith(bytes, SignatureTable[1].magic) <==> StartsWith(other, SignatureTable[1].magic);
    assert StartsWith(bytes, SignatureTable[2].magic) <==> StartsWith(other, SignatureTable[2].magic);
    assert StartsWith(bytes, SignatureTable[3].magic) <==> StartsWith(other, SignatureTable[3].magic);
    assert StartsWith(bytes, SignatureTable[4].magic) <==> StartsWith(other, SignatureTable[4].magic);
    assert StartsWith(bytes, SignatureTable[5].magic) <==> StartsWith(other, SignatureTable[5].magic);
    assert StartsWith(bytes, SignatureTable[6].magic) <==> StartsWith(other, SignatureTable[6].magic);
  }

  /** The four signatures shorter than four bytes decide on their own: "BM" is a BMP, "GIF" a
      GIF and each three-byte TIFF signature a TIFF even when nothing follows them. */
  lemma ShortSignaturesStandAlone()
    ensures GetImageFormat(BmpSignature) == Bmp
    ensures GetImageFormat(GifSignature) == Gif
    ensures GetImageFormat(TiffSignature) == Tiff
    ensures GetImageFormat(Tiff2Signature) == Tiff
  {
  }

  /** A PNG is recognised from the first four bytes of its signature alone: the other four
      bytes of the 8-byte signature are never looked at. */
  lemma PngReadsHalfTheSignature(rest: seq<byte>)
    ensures GetImageFormat(PngSignature + rest) == Png
    ensures GetImageFormat([137, 80, 78, 71, 13, 10, 26, 10]) == Png
  {
  }

  /** A JPEG is recognised only when its first marker after the start-of-image marker is APP0
      or APP1; any other fourth byte (a quantisation table, an APP2 marker, ...) is Unknown,
      and so is the start-of-image marker followed by FF with nothing after it. */
  lemma JpegNeedsApp0OrApp1(marker: byte, rest: seq<byte>)
    requires marker != 224 && marker != 225
    ensures GetImageFormat([255, 216, 255, marker] + rest) == Unknown
    ensures !IsValidImage([255, 216, 255, marker] + rest)
    ensures GetImageFormat([255, 216, 255]) == Unknown
  {
  }

  /** The big-endian TIFF test expects 42 right after "MM", while a big-endian TIFF header
      stores 42 as the two bytes 0, 42: such a header is Unknown, and "MM" then 42 is a TIFF. */
  lemma BigEndianTiffHeaderIsUnknown(rest: seq<byte>)
    ensures GetImageFormat([77, 77, 0, 42] + rest) == Unknown
    ensures GetImageFormat([77, 77, 42] + rest) == Tiff
  {
    var header := [77, 77, 0, 42] + rest;
    assert header[..3] == [77, 77, 0];
    assert header[0] == 77;
    assert ([77, 77, 42] + rest)[..3] == Tiff2Signature;
  }

  // ---------------------------------------------------------------------------------------
  // The chain as a table scan. Running the tests of a table in its order and keeping the first
  // hit is what GetImageFormat does with its seven tests; because formats that differ have
  // signatures that differ in their first byte, any reordering of the table agrees.

  /** Runs the tests of `table` in order and reports the format of the first that succeeds. */
  function FirstMatch(table: seq<Signature>, bytes: seq<byte>): (r: ImageFormat)
    ensures r == Unknown || exists i :: 0 <= i < |table| && table[i].format == r && StartsWith(bytes, table[i].magic)
  {
    if |table| == 0 then Unknown
    else if SignatureMatches(table[0].magic, bytes) then table[0].format
    else
      var r := FirstMatch(table[1..], bytes);
      assert r != Unknown ==> exists i :: 0 <= i < |table[1..]| && table[1..][i].format == r && StartsWith(bytes, table[1..][i].magic);
      r
  }

  /** The scan reports the first entry that matches: an entry that matches, with no entry
      before it matching, decides the result whatever follows it in the table. */
  lemma {:induction false} FirstMatchIsFirstHit(table: seq<Signature>, bytes: seq<byte>, i: nat)
    requires i < |table| && StartsWith(bytes, table[i].magic)
    requires forall j :: 0 <= j < i ==> !StartsWith(bytes, table[j].magic)
    ensures FirstMatch(table, bytes) == table[i].format
  {
    if i > 0 {
      assert forall j :: 0 <= j < i - 1 ==> table[1..][j] == table[j + 1];
      FirstMatchIsFirstHit(table[1..], bytes, i - 1);
    }
  }

  /** No two entries of the table that report different formats can both match one input:
      their signatures are non-empty and begin with different bytes. */
  ghost predicate Exclusive(table: seq<Signature>)
  {
    forall i, j :: 0 <= i < |table| && 0 <= j < |table| && table[i].format != table[j].format ==>
      |table[i].magic| > 0 && |table[j].magic| > 0 && table[i].magic[0] != table[j].magic[0]
  }

  /** The seven signatures begin with 66, 71, 137, 73, 77, 255 and 255, and only the two
      JPEG signatures share a first byte. */
  lemma SignatureTableIsExclusive()
    ensures Exclusive(SignatureTable)
  {
  }

  lemma {:induction false} FirstMatchFindsAnyMatch(table: seq<Signature>, bytes: seq<byte>, i: nat)
    requires Exclusive(table)
    requires i < |table| && StartsWith(bytes, table[i].magic)
    ensures FirstMatch(table, bytes) == table[i].format
  {
    if !StartsWith(bytes, table[0].magic) {
      assert i != 0;
      assert Exclusive(table[1..]) by {
        forall p, q | 0 <= p < |table[1..]| && 0 <= q < |table[1..]| && table[1..][p].format != table[1..][q].format
          ensures |table[1..][p].magic| > 0 && |table[1..][q].magic| > 0 && table[1..][p].magic[0] != table[1..][q].magic[0]
        {
          assert table[1..][p] == table[p + 1] && table[1..][q] == table[q + 1];
        }
      }
      FirstMatchFindsAnyMatch(table[1..], bytes, i - 1);
    }
  }

  lemma FirstMatchWithoutMatch(table: seq<Signature>, bytes: seq<byte>)
    requires forall i :: 0 <= i < |table| ==> !StartsWith(bytes, table[i].magic)
    ensures FirstMatch(table, bytes) == Unknown
  {
  }

  /** The chain of tests in GetImageFormat is the table run in its listed order. */
  lemma ChainIsTableInOrder(bytes: seq<byte>)
    ensures GetImageFormat(bytes) == FirstMatch(SignatureTable, bytes)
  {
    SignatureTableIsExclusive();
    if StartsWith(bytes, BmpSignature) {
      FirstMatchFindsAnyMatch(SignatureTable, bytes, 0);
    } else if StartsWith(bytes, GifSignature) {
      FirstMatchFindsAnyMatch(SignatureTable, bytes, 1);
    } else if StartsWith(bytes, PngSignature) {
      FirstMatchFindsAnyMatch(SignatureTable, bytes, 2);
    } else if StartsWith(bytes, TiffSignature) {
      FirstMatchFindsAnyMatch(SignatureTable, bytes, 3);
    } else if StartsWith(bytes, Tiff2Signature) {
      FirstMatchFindsAnyMatch(SignatureTable, bytes, 4);
    } else if StartsWith(bytes, JpegSignature) {
      FirstMatchFindsAnyMatch(SignatureTable, bytes, 5);
    } else if StartsWith(bytes, Jpeg2Signature) {
      FirstMatchFindsAnyMatch(SignatureTable, bytes, 6);
    } else {
      FirstMatchWithoutMatch(SignatureTable, bytes);
    }
  }

  /** Two tables listing the same entries, in whatever order and however often. */
  ghost predicate SameEntries(table: seq<Signature>, other: seq<Signature>)
  {
    forall s :: s in table <==> s in other
  }

  lemma SameEntriesKeepExclusive(table: seq<Signature>, other: seq<Signature>)
    requires SameEntries(table, other) && Exclusive(other)
    ensures Exclusive(table)
  {
    forall i, j | 0 <= i < |table| && 0 <= j < |table| && table[i].format != table[j].format
      ensures |table[i].magic| > 0 && |table[j].magic| > 0 && table[i].magic[0] != table[j].magic[0]
    {
      assert table[i] in other && table[j] in other;
    }
  }

  /** Tables with the same entries, both exclusive, report the same format for every input. */
  lemma SameEntriesSameResult(table: seq<Signature>, other: seq<Signature>, bytes: seq<byte>)
    requires SameEntries(table, other) && Exclusive(other)
    ensures FirstMatch(table, bytes) == FirstMatch(other, bytes)
  {
    SameEntriesKeepExclusive(table, other);
    if i :| 0 <= i < |table| && StartsWith(bytes, table[i].magic) {
      FirstMatchFindsAnyMatch(table, bytes, i);
      assert table[i] in other;
      var k :| 0 <= k < |other| && other[k] == table[i];
      FirstMatchFindsAnyMatch(other, bytes, k);
    } else {
      FirstMatchWithoutMatch(table, bytes);
      forall k | 0 <= k < |other|
        ensures !StartsWith(bytes, other[k].magic)
      {
        assert other[k] in table;
      }
      FirstMatchWithoutMatch(other, bytes);
    }
  }

  /** The order of the chain does not affect the result: running the same signatures in any
      order (repeated or not) classifies every input as GetImageFormat does. */
  lemma OrderDoesNotMatter(table: seq<Signature>, bytes: seq<byte>)
    requires SameEntries(table, SignatureTable)
    ensures FirstMatch(table, bytes) == GetImageFormat(bytes)
  {
    SignatureTableIsExclusive();
    SameEntriesSameResult(table, SignatureTable, bytes);
    ChainIsTableInOrder(bytes);
  }
}
