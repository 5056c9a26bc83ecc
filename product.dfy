/**
 * A data product extracted from an archive member (src/product.rs): the member is
 * read into a buffer of at most 8 MiB, its name is upper-cased, and a member named
 * `*.ZIP` is unwrapped when it holds exactly one member of its own.
 */
module Products {
  import opened Wrappers
  import opened Errors
  import opened Names
  import opened Zip

  /** The read buffer is clamped to `8 << 20` bytes. */
  const MaxRead: nat := 8 * 1024 * 1024

  datatype Product = Product(filename: string, contents: seq<byte>)

  /** `file.size().clamp(0, 8 << 20)`: how many bytes `read_exact` must deliver. */
  function ReadLen(size: nat): (n: nat)
    ensures n <= size && n <= MaxRead
    ensures n == size || n == MaxRead
  {
    if size < MaxRead then size else MaxRead
  }

  /** A name ending in `.ZIP` (after upper-casing) names a nested archive. */
  predicate IsZipName(filename: string)
  {
    EndsWith(filename, ".ZIP")
  }

  /**
   * `Product::new` on a member that the zip library did open: read it, upper-case
   * its name and, for a `.ZIP` member, recurse into its only inner member.
   */
  function FromMember(e: Entry): (r: Result<Product, Error>)
    ensures |e.data| < ReadLen(e.size) ==> r == Err(ArchiveFormat(Io))
    ensures r.Ok? ==> !IsZipName(r.value.filename)
    ensures r.Ok? ==> |r.value.contents| <= MaxRead
    ensures r.Ok? ==> forall i :: 0 <= i < |r.value.filename| ==> !('a' <= r.value.filename[i] <= 'z')
    ensures r.Err? ==> !r.error.Http?
    ensures r.Err? && r.error.ArchiveMember? ==> IsZipName(r.error.name)
    decreases e
  {
    var n := ReadLen(e.size);
    if |e.data| < n then Err(ArchiveFormat(Io))
    else
      var contents := e.data[..n];
      var filename := Upper(e.name);
      if IsZipName(filename) then
        match e.nested
        case None => Err(ArchiveFormat(Invalid))
        case Some(inner) =>
          if |inner.entries| != 1 then Err(ArchiveMember(filename))
          else match ByIndex(inner, 0)
            case Err(z) => Err(ArchiveFormat(z))
            case Ok(f) => FromMember(f)
      else Ok(Product(filename, contents))
  }

  /** `Product::new(file)`: a member the library could not open is an archive format error. */
  function New(file: Result<Entry, ZipError>): (r: Result<Product, Error>)
    ensures file.Err? ==> r == Err(ArchiveFormat(file.error))
    ensures file.Ok? ==> r == FromMember(file.value)
  {
    match file
    case Err(z) => Err(ArchiveFormat(z))
    case Ok(e) => FromMember(e)
  }

  /** A plain member yields its upper-cased name and exactly its first `min(size, 8 MiB)` bytes. */
  lemma PlainMember(e: Entry)
    requires !IsZipName(Upper(e.name))
    requires |e.data| >= ReadLen(e.size)
    ensures New(Ok(e)) == Ok(Product(Upper(e.name), e.data[..ReadLen(e.size)]))
    ensures |New(Ok(e)).value.contents| == if e.size < MaxRead then e.size else MaxRead
  {
  }

  /** A `.ZIP` member with exactly one inner member is replaced by that member's product. */
  lemma NestedSingleMember(e: Entry, inner: Archive)
    requires |e.data| >= ReadLen(e.size)
    requires IsZipName(Upper(e.name))
    requires e.nested == Some(inner) && |inner.entries| == 1
    ensures New(Ok(e)) == New(ByIndex(inner, 0))
  {
  }

  /** A `.ZIP` member whose inner archive does not hold exactly one member fails, naming the outer member. */
  lemma NestedWrongCount(e: Entry, inner: Archive)
    requires |e.data| >= ReadLen(e.size)
    requires IsZipName(Upper(e.name))
    requires e.nested == Some(inner) && |inner.entries| != 1
    ensures New(Ok(e)) == Err(ArchiveMember(Upper(e.name)))
  {
  }

  /** A `.ZIP` member whose bytes do not open as an archive is an archive format error. */
  lemma NestedUnreadable(e: Entry)
    requires |e.data| >= ReadLen(e.size)
    requires IsZipName(Upper(e.name))
    requires e.nested == None
    ensures New(Ok(e)) == Err(ArchiveFormat(Invalid))
  {
  }

  /** The part of the name after its last `'.'`, or the whole name: `rsplit('.').next().unwrap()`. */
  function LastSegment(s: string): (r: string)
    ensures '.' !in r
    ensures EndsWith(s, r)
    ensures |r| == |s| || s[|s| - |r| - 1] == '.'
  {
    if s == [] then []
    else if s[|s| - 1] == '.' then []
    else
      var r := LastSegment(s[..|s| - 1]) + [s[|s| - 1]];
      assert s[..|s| - 1][|s| - 1 - (|r| - 1)..] == s[|s| - |r|..|s| - 1];
      r
  }

  /** The extension is `ext` exactly when the name is `ext` itself or ends in `.` followed by `ext`. */
  lemma LastSegmentIs(s: string, ext: string)
    requires '.' !in ext
    ensures LastSegment(s) == ext <==> s == ext || EndsWith(s, ['.'] + ext)
  {
    var r := LastSegment(s);
    if r == ext && |r| < |s| {
      assert s[|s| - |ext| - 1..] == ['.'] + ext;
    }
    if EndsWith(s, ['.'] + ext) {
      var k := |s| - |ext| - 1;
      assert s[k] == '.';
      assert s[|s| - |ext|..] == ext;
      assert s[|s| - |r|..] == r;
    }
  }

  /**
   * `mime_type` as written: the segment after the last dot is compared with
   * `".TXT"`, `".GIF"`, `".JPG"` and `".PNG"`, each of which contains a dot.
   */
  function MimeTypeAsWritten(p: Product): (r: Option<string>)
    ensures r.Some? ==> '.' in LastSegment(p.filename)
    ensures r.Some? ==> r.value in {"text/plain", "image/gif", "image/jpeg", "image/png"}
  {
    var ext := LastSegment(p.filename);
    if ext == ".TXT" then Some("text/plain")
    else if ext == ".GIF" then Some("image/gif")
    else if ext == ".JPG" then Some("image/jpeg")
    else if ext == ".PNG" then Some("image/png")
    else None
  }

  /** No arm of `mime_type` as written can match: every product is unclassified. */
  lemma MimeTypeAsWrittenIsNone(p: Product)
    ensures MimeTypeAsWritten(p) == None
  {
  }

  /** A text product is not classified as text by `mime_type` as written. */
  lemma MimeTypeAsWrittenMissesText()
    ensures MimeTypeAsWritten(Product("ZFPSFOTX.TXT", [])) == None
    ensures MimeType(Product("ZFPSFOTX.TXT", [])) == Some("text/plain")
  {
  }

  /** The intended `mime_type`: the extension after the last dot, compared without the dot. */
  function MimeType(p: Product): (r: Option<string>)
    ensures r.Some? <==> LastSegment(p.filename) in {"TXT", "GIF", "JPG", "PNG"}
    ensures r.Some? ==> r.value in {"text/plain", "image/gif", "image/jpeg", "image/png"}
  {
    var ext := LastSegment(p.filename);
    if ext == "TXT" then Some("text/plain")
    else if ext == "GIF" then Some("image/gif")
    else if ext == "JPG" then Some("image/jpeg")
    else if ext == "PNG" then Some("image/png")
    else None
  }

  /** Each type is declared exactly for names with that suffix (or a bare name equal to the extension). */
  lemma MimeTypeBySuffix(p: Product)
    ensures MimeType(p) == Some("text/plain") <==> p.filename == "TXT" || EndsWith(p.filename, ".TXT")
    ensures MimeType(p) == Some("image/gif") <==> p.filename == "GIF" || EndsWith(p.filename, ".GIF")
    ensures MimeType(p) == Some("image/jpeg") <==> p.filename == "JPG" || EndsWith(p.filename, ".JPG")
    ensures MimeType(p) == Some("image/png") <==> p.filename == "PNG" || EndsWith(p.filename, ".PNG")
  {
    MimeTypeText(p);
    MimeTypeGif(p);
    MimeTypeJpeg(p);
    MimeTypePng(p);
  }

  lemma MimeTypeText(p: Product)
    ensures MimeType(p) == Some("text/plain") <==> p.filename == "TXT" || EndsWith(p.filename, ".TXT")
  {
    assert MimeType(p) == Some("text/plain") <==> LastSegment(p.filename) == "TXT";
    assert ".TXT" == ['.'] + "TXT";
    LastSegmentIs(p.filename, "TXT");
  }

  lemma MimeTypeGif(p: Product)
    ensures MimeType(p) == Some("image/gif") <==> p.filename == "GIF" || EndsWith(p.filename, ".GIF")
  {
    assert MimeType(p) == Some("image/gif") <==> LastSegment(p.filename) == "GIF";
    assert ".GIF" == ['.'] + "GIF";
    LastSegmentIs(p.filename, "GIF");
  }

  lemma MimeTypeJpeg(p: Product)
    ensures MimeType(p) == Some("image/jpeg") <==> p.filename == "JPG" || EndsWith(p.filename, ".JPG")
  {
    assert MimeType(p) == Some("image/jpeg") <==> LastSegment(p.filename) == "JPG";
    assert ".JPG" == ['.'] + "JPG";
    LastSegmentIs(p.filename, "JPG");
  }

  lemma MimeTypePng(p: Product)
    ensures MimeType(p) == Some("image/png") <==> p.filename == "PNG" || EndsWith(p.filename, ".PNG")
  {
    assert MimeType(p) == Some("image/png") <==> LastSegment(p.filename) == "PNG";
    assert ".PNG" == ['.'] + "PNG";
    LastSegmentIs(p.filename, "PNG");
  }
}
