# Image-format sniffing for the image-classification web app

The prediction web app accepts an uploaded image only if its bytes look like a JPEG or a PNG.
It decides this by "magic-number sniffing": `GetImageFormat` runs a fixed, ordered chain of
tests, each asking whether the array begins with one signature, and the first test that
succeeds names the format (`bmp`, `gif`, `png`, `tiff`, `jpeg`, else `unknown`);
`IsValidImage` accepts exactly `jpeg` and `png`.

Each test is `signature.SequenceEqual(bytes.Take(signature.Length))`. `Take` yields fewer
elements when the array is shorter than the signature, so a short array fails that test
instead of faulting, and the chain goes on to the next test.

The model has two modules:

- `ByteSequences` (`byte_sequences.dfy`) holds the `byte` type and the `StartsWith` reference
  predicate. It also holds `Take` and `SequenceEqual`, the two LINQ operators, written as
  recursive functions with the library's behaviour on short and unequal inputs.
- `ImageValidation` (`image_validation.dfy`) holds the `ImageFormat` enumeration and the seven
  signatures, byte for byte as the code spells them. It holds `GetImageFormat` as the literal
  if-chain, and `IsValidImage`. `FirstMatch` is a table-driven reference chain, used to prove
  that the order of the tests does not matter.

The signatures are the code's, not the format standards'. PNG is recognised by the first four
of the eight bytes of its signature (section 5.2 of the PNG specification). JPEG is recognised
only when the start-of-image marker FF D8 is followed by an APP0 or APP1 marker. The big-endian
TIFF test expects `4D 4D 2A`, whereas a big-endian TIFF 6.0 header begins `4D 4D 00 2A`.
Lemmas state all three consequences.

Not every input shorter than four bytes is `unknown`: "BM" alone is `bmp`, "GIF" alone is
`gif`, and each of the three-byte TIFF signatures 49 49 2A and 4D 4D 2A alone is `tiff`
(`ShortSignaturesStandAlone`). Only inputs of length 0 or 1 are always `unknown`
(`ShortInputIsUnknown`), and no input shorter than four bytes is ever accepted.

## Model

| member | source | states |
|---|---|---|
| `ByteSequences.Take` | WebApp.Predict/ImageHelpers/ImageValidation.cs:36-55 | `bytes.Take(n)` has `min(n, length)` elements and is a prefix of the input, so it never fails on a short array |
| `ByteSequences.SequenceEqual` | WebApp.Predict/ImageHelpers/ImageValidation.cs:36-55 | the element-by-element comparison is true exactly when both sequences are equal; a length mismatch answers false |
| `ImageValidation.SignatureMatches` | WebApp.Predict/ImageHelpers/ImageValidation.cs:36 | one test `sig.SequenceEqual(bytes.Take(sig.Length))` succeeds exactly when the input begins with the signature |
| `ImageValidation.GetImageFormat` | WebApp.Predict/ImageHelpers/ImageValidation.cs:25-58 | bmp exactly when the input begins with 66,77; gif exactly with 71,73,70; png exactly with 137,80,78,71; tiff exactly with 73,73,42 or 77,77,42; jpeg exactly with 255,216,255,224 or 255,216,255,225; unknown exactly when none of the seven matches |
| `ImageValidation.IsValidImage` | WebApp.Predict/ImageHelpers/ImageValidation.cs:8-13 | accepted exactly when the input begins with the PNG signature or with one of the two JPEG signatures; an accepted input has at least four bytes |
| `ImageValidation.ShortInputIsUnknown` | WebApp.Predict/ImageHelpers/ImageValidation.cs:36-57 | an input of length 0 or 1 is unknown and rejected |
| `ImageValidation.FirstFourBytesDecide` | WebApp.Predict/ImageHelpers/ImageValidation.cs:28-57 | on an input of at least four bytes, appending bytes never changes the format, and the format equals that of the first four bytes |
| `ImageValidation.SameMatchesSameFormat` | WebApp.Predict/ImageHelpers/ImageValidation.cs:36-57 | two inputs that begin with the same signatures of the seven get the same format: nothing else of the input is read |
| `ImageValidation.ShortSignaturesStandAlone` | WebApp.Predict/ImageHelpers/ImageValidation.cs:28-49 | the four signatures shorter than four bytes decide on their own: "BM" alone is bmp, "GIF" alone is gif, and 73,73,42 alone and 77,77,42 alone are tiff |
| `ImageValidation.PngReadsHalfTheSignature` | WebApp.Predict/ImageHelpers/ImageValidation.cs:30-43 | any input beginning 137,80,78,71 is png, whatever follows, including the full 8-byte signature |
| `ImageValidation.JpegNeedsApp0OrApp1` | WebApp.Predict/ImageHelpers/ImageValidation.cs:33-57 | FF D8 FF followed by any marker byte other than E0 or E1 is unknown and rejected, and FF D8 FF alone is unknown |
| `ImageValidation.BigEndianTiffHeaderIsUnknown` | WebApp.Predict/ImageHelpers/ImageValidation.cs:32-49 | a real big-endian TIFF header 4D 4D 00 2A is unknown, while 4D 4D 2A is tiff |
| `ImageValidation.FirstMatch` | WebApp.Predict/ImageHelpers/ImageValidation.cs:36-57 | the first-hit scan of a signature table reports unknown or the format of an entry whose signature begins the input |
| `ImageValidation.FirstMatchIsFirstHit` | WebApp.Predict/ImageHelpers/ImageValidation.cs:36-57 | an entry that matches, with no earlier entry matching, decides the scan's result, as the chain's early returns do |
| `ImageValidation.SignatureTableIsExclusive` | WebApp.Predict/ImageHelpers/ImageValidation.cs:28-34 | signatures of different formats are non-empty and differ in their first byte (66, 71, 137, 73/77, 255) |
| `ImageValidation.FirstMatchFindsAnyMatch` | WebApp.Predict/ImageHelpers/ImageValidation.cs:36-55 | in an exclusive table, the first-hit scan reports the format of any entry that matches, not only of the first one |
| `ImageValidation.FirstMatchWithoutMatch` | WebApp.Predict/ImageHelpers/ImageValidation.cs:57 | when no entry matches, the scan falls through to unknown |
| `ImageValidation.ChainIsTableInOrder` | WebApp.Predict/ImageHelpers/ImageValidation.cs:28-57 | the if-chain equals the first-hit scan of the seven signatures in their listed order |
| `ImageValidation.SameEntriesKeepExclusive` | WebApp.Predict/ImageHelpers/ImageValidation.cs:28-34 | reordering or repeating the signatures keeps them exclusive |
| `ImageValidation.SameEntriesSameResult` | WebApp.Predict/ImageHelpers/ImageValidation.cs:36-57 | two exclusive tables with the same entries classify every input alike |
| `ImageValidation.OrderDoesNotMatter` | WebApp.Predict/ImageHelpers/ImageValidation.cs:36-57 | running the seven tests in any order classifies every input as the code's chain does |

## Left out

- A null array: `Take` on a null reference throws `ArgumentNullException` in the code. A Dafny sequence cannot be null, so that fault is not modelled.
- The web controller's decisions are not modelled. It answers 400 for an empty upload, 415 when `IsValidImage` fails, and names the saved file ".jpg" for jpeg and ".png" otherwise. The rest of the controller is file writing, logging and calls into the framework's `PredictionEnginePool`, all I/O or foreign code.
- The training and console programs are not modelled. Label-key mapping (`MapValueToKey`), shuffling (`ShuffleRows`), the train/test split (`TrainTestSplit`), grayscale conversion (`ConvertToGrayscale`) and the DNN trainer are all calls into the machine-learning library, whose code is not part of this model. Console output and metric printing use floating point.
- Loading images from the dataset folders (`LoadImagesFromDirectory`, which delegates to a `FileUtils` helper) is not modelled: that helper is not part of this model, and the rest is file-system I/O.
