/** The candidate filter of ScanForDcuments (Program.cs:113-116): a scanned
    file is copied only when it was last accessed after the watermark and its
    extension is one of the document extensions, compared ignoring case. */
module Filter {
  import opened Common
  import opened Paths
  import opened Timestamps

  /** What the recursive listing of the source tree yields per file: its full
      name and its last-access time in UTC. */
  datatype FileRecord = FileRecord(fullName: Path, lastAccessUtc: DateTime)

  /** DocumentExtensions (Program.cs:15). */
  const DocumentExtensions: seq<string> := [".pdf", ".docx", ".xlsx"]

  /** DocumentExtensions.Contains(extension, StringComparer.OrdinalIgnoreCase). */
  predicate IsDocument(f: FileRecord)
    ensures IsDocument(f) ==> Extension(f.fullName) != [] && Extension(f.fullName)[0] == '.'
  {
    exists k :: 0 <= k < |DocumentExtensions| && EqualsIgnoreCase(Extension(f.fullName), DocumentExtensions[k])
  }

  /** The Where predicate: strictly after the watermark, and a document. */
  predicate IsCandidate(f: FileRecord, watermark: DateTime)
    ensures IsCandidate(f, watermark) ==> f.lastAccessUtc != watermark && IsDocument(f)
  {
    Before(watermark, f.lastAccessUtc) && IsDocument(f)
  }

  /** The candidates, in scan order. */
  function Candidates(files: seq<FileRecord>, watermark: DateTime): (r: seq<FileRecord>)
    ensures |r| <= |files|
    ensures forall f :: f in r <==> f in files && IsCandidate(f, watermark)
  {
    if files == [] then []
    else
      var rest := Candidates(files[1..], watermark);
      assert files == [files[0]] + files[1..];
      if IsCandidate(files[0], watermark) then [files[0]] + rest else rest
  }

  /** The filter keeps the scan's relative order: filtering a listing in two
      parts is filtering each part in turn. */
  lemma {:induction false} CandidatesKeepOrder(a: seq<FileRecord>, b: seq<FileRecord>, watermark: DateTime)
    ensures Candidates(a + b, watermark) == Candidates(a, watermark) + Candidates(b, watermark)
  {
    if a != [] {
      assert (a + b)[0] == a[0];
      assert (a + b)[1..] == a[1..] + b;
      CandidatesKeepOrder(a[1..], b, watermark);
    } else {
      assert a + b == b;
    }
  }

  /** Filtering the candidates again changes nothing. */
  lemma {:induction false} CandidatesIdempotent(files: seq<FileRecord>, watermark: DateTime)
    ensures Candidates(Candidates(files, watermark), watermark) == Candidates(files, watermark)
  {
    if files != [] {
      CandidatesIdempotent(files[1..], watermark);
      var rest := Candidates(files[1..], watermark);
      if IsCandidate(files[0], watermark) {
        assert ([files[0]] + rest)[1..] == rest;
      }
    }
  }

  /** A later watermark keeps a subset of the candidates, still in order: each
      is also a candidate under the earlier watermark. */
  lemma {:induction false} LaterWatermarkFiltersMore(files: seq<FileRecord>, earlier: DateTime, later: DateTime)
    requires !Before(later, earlier)
    ensures Candidates(Candidates(files, earlier), later) == Candidates(files, later)
  {
    if files != [] {
      LaterWatermarkFiltersMore(files[1..], earlier, later);
      var f := files[0];
      var rest := Candidates(files[1..], earlier);
      if IsCandidate(f, earlier) {
        assert ([f] + rest)[1..] == rest;
      } else {
        if earlier != later && Before(later, f.lastAccessUtc) {
          assert Before(earlier, later);
          BeforeTransitive(earlier, later, f.lastAccessUtc);
        }
      }
    }
  }

  /** The document test is the upper-cased extension being one of ".PDF",
      ".DOCX" and ".XLSX". */
  lemma IsDocumentIffUpperExtension(f: FileRecord)
    ensures IsDocument(f) <==> Upper(Extension(f.fullName)) in {".PDF", ".DOCX", ".XLSX"}
  {
    var e := Extension(f.fullName);
    UpperDocumentExtensions();
    EqualsIgnoreCaseIffSameUpper(e, DocumentExtensions[0]);
    EqualsIgnoreCaseIffSameUpper(e, DocumentExtensions[1]);
    EqualsIgnoreCaseIffSameUpper(e, DocumentExtensions[2]);
    if IsDocument(f) {
      var k :| 0 <= k < |DocumentExtensions| && EqualsIgnoreCase(e, DocumentExtensions[k]);
      assert k == 0 || k == 1 || k == 2;
    }
  }

  lemma UpperDocumentExtensions()
    ensures Upper(DocumentExtensions[0]) == ".PDF"
    ensures Upper(DocumentExtensions[1]) == ".DOCX"
    ensures Upper(DocumentExtensions[2]) == ".XLSX"
  {
    UpperIs(".pdf", ".PDF");
    UpperIs(".docx", ".DOCX");
    UpperIs(".xlsx", ".XLSX");
  }

  lemma UpperIs(s: string, u: string)
    requires |s| == |u| && forall i :: 0 <= i < |s| ==> UpperAscii(s[i]) == u[i]
    ensures Upper(s) == u
  {
  }

  /** The sentinel file the copier keeps in the source root is never a
      candidate: its whole name is its extension, which is none of the
      document extensions. */
  lemma SentinelNeverCandidate(root: Path, t: DateTime, watermark: DateTime)
    requires EndsWithSeparator(root)
    ensures !IsCandidate(FileRecord(root + SentinelName, t), watermark)
  {
    var p := root + SentinelName;
    assert Separator !in SentinelName;
    NameStartAfterSeparator(root, SentinelName);
    assert FileName(p) == SentinelName;
    SentinelExtensionLength(p);
    DocumentExtensionLength(FileRecord(p, t));
  }

  lemma SentinelExtensionLength(p: Path)
    requires FileName(p) == SentinelName
    ensures |Extension(p)| != 4 && |Extension(p)| != 5
  {
    ExtensionIsLastDotSuffix(p);
  }

  lemma DocumentExtensionLength(f: FileRecord)
    ensures IsDocument(f) ==> |Extension(f.fullName)| == 4 || |Extension(f.fullName)| == 5
  {
    if IsDocument(f) {
      var k :| 0 <= k < |DocumentExtensions| && EqualsIgnoreCase(Extension(f.fullName), DocumentExtensions[k]);
      assert |DocumentExtensions[k]| == 4 || |DocumentExtensions[k]| == 5;
    }
  }

  /** No document is named `.DS_Store`: that name's extension is the whole
      name, longer than every document extension. */
  lemma DocumentNotNamedDsStore(f: FileRecord)
    requires IsDocument(f)
    ensures FileName(f.fullName) != ".DS_Store"
  {
    DocumentExtensionLength(f);
    ExtensionIsLastDotSuffix(f.fullName);
  }

  /** The name of the sentinel file (Program.cs:35). */
  const SentinelName: string := ".PaperlessImportTimestamp"

  lemma {:induction false} NameStartAfterSeparator(root: Path, name: Path)
    requires EndsWithSeparator(root) && Separator !in name
    ensures NameStart(root + name) == |root|
  {
    if name != [] {
      assert (root + name)[..|root + name| - 1] == root + name[..|name| - 1];
      NameStartAfterSeparator(root, name[..|name| - 1]);
    } else {
      assert root + name == root;
    }
  }
}
