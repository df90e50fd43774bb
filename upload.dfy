/**
 * The upload gate of backend/utils/upload.js: the file filter, the name a
 * stored file gets, and the size limit. `path.extname` and `path.basename`
 * are modelled after Node's POSIX `path` module.
 */
module Upload {
  import opened JsString

  const AllowedMimeTypes: seq<string> := ["application/pdf", "text/plain"]
  const AllowedExtensions: seq<string> := [".pdf", ".txt"]
  /** The `limits.fileSize` option, in bytes. */
  const MaxFileSize: nat := 10 * 1024 * 1024
  const InvalidTypeMessage := "Invalid file type. Only PDF and TXT files are allowed."
  /** What the upload layer reports for a file over the size limit. */
  const TooLargeMessage := "File too large"

  /** End of `p[..e]` once its trailing '/' characters are dropped. */
  function ContentEnd(p: string, e: nat): (r: nat)
    requires e <= |p|
    ensures r <= e
    ensures r == 0 || p[r - 1] != '/'
    ensures forall k :: r <= k < e ==> p[k] == '/'
  {
    if e > 0 && p[e - 1] == '/' then ContentEnd(p, e - 1) else e
  }

  /** Start of the last component of `p[..e]`: just after its last '/', or 0. */
  function ComponentStart(p: string, e: nat): (r: nat)
    requires e <= |p|
    ensures r <= e
    ensures forall k :: r <= k < e ==> p[k] != '/'
    ensures r == 0 || p[r - 1] == '/'
  {
    if e > 0 && p[e - 1] != '/' then ComponentStart(p, e - 1) else e
  }

  /** The last path component, ignoring trailing separators. */
  function BaseName(p: string): (r: string)
    ensures '/' !in r
  {
    var e := ContentEnd(p, |p|);
    p[ComponentStart(p, e)..e]
  }

  /** Index of the last '.' in `s`, or -1. */
  function LastDot(s: string): (d: int)
    ensures -1 <= d < |s|
    ensures d >= 0 ==> s[d] == '.'
    ensures forall k :: d < k < |s| ==> s[k] != '.'
  {
    if |s| == 0 then -1
    else if s[|s| - 1] == '.' then |s| - 1
    else LastDot(s[..|s| - 1])
  }

  /** `path.extname(p)`: from the last '.' of the last component to its end;
      empty when that component has no '.', when its only '.' is its first
      character, and for the component '..'. */
  function ExtName(p: string): (r: string)
  {
    var b := BaseName(p);
    var d := LastDot(b);
    if d <= 0 || b == ".." then [] else b[d..]
  }

  /** `path.basename(p, path.extname(p))`: the last component without its
      extension. */
  function Stem(p: string): (r: string)
  {
    var b := BaseName(p);
    var d := LastDot(b);
    if d <= 0 || b == ".." then b else b[..d]
  }

  /** The stem and the extension make up the last component again, and the
      extension is empty or a '.' followed by characters other than '.'. */
  lemma StemAndExtension(p: string)
    ensures Stem(p) + ExtName(p) == BaseName(p)
    ensures ExtName(p) == [] || (ExtName(p)[0] == '.' && '.' !in ExtName(p)[1..])
    ensures ExtName(p) != [] ==> Stem(p) != []
  {
    var b := BaseName(p);
    var d := LastDot(b);
    if d <= 0 || b == ".." {
      assert ExtName(p) == [] && Stem(p) == b;
      assert b + [] == b;
    } else {
      assert ExtName(p) == b[d..] && Stem(p) == b[..d];
      SplitAtLastDot(b, d);
    }
  }

  /** A non-empty extension starts with its '.'. */
  lemma ExtNameStartsWithDot(p: string)
    ensures ExtName(p) == [] || ExtName(p)[0] == '.'
  {
    var b := BaseName(p);
    var d := LastDot(b);
    if 0 < d && b != ".." {
      assert ExtName(p) == b[d..];
    }
  }

  /** Cutting a component at its last '.' (not the first character). */
  lemma SplitAtLastDot(b: string, d: int)
    requires d == LastDot(b) && d > 0
    ensures b[..d] + b[d..] == b
    ensures b[d..][0] == '.' && '.' !in b[d..][1..]
  {
    var e := b[d..];
    assert e[0] == '.';
    forall k | 1 <= k < |e| ensures e[k] != '.' {
      assert e[k] == b[d + k];
    }
  }

  /** Appending an extension to a stem: `path.extname` gives that extension back. */
  lemma {:induction false} ExtNameOfAppend(stem: string, ext: string)
    requires stem != [] && '/' !in stem
    requires |ext| >= 2 && ext[0] == '.' && '.' !in ext[1..] && '/' !in ext
    ensures ExtName(stem + ext) == ext
    ensures Stem(stem + ext) == stem
  {
    var p := stem + ext;
    NoSlashInAppend(stem, ext);
    NoSlashIsOwnBase(p);
    DotsOfAppend(stem, ext);
    LastDotAt(p, |stem|);
    assert p[|stem|..] == ext && p[..|stem|] == stem;
  }

  /** Two strings without '/' joined have none either. */
  lemma NoSlashInAppend(a: string, b: string)
    requires '/' !in a && '/' !in b
    ensures '/' !in a + b
  {
    var p := a + b;
    forall k | 0 <= k < |p| ensures p[k] != '/' {
      if k < |a| { assert p[k] == a[k]; } else { assert p[k] == b[k - |a|]; }
    }
  }

  /** The pieces of a string without '/' have none either. */
  lemma NoSlashInPieces(a: string, b: string, whole: string)
    requires a + b == whole && '/' !in whole
    ensures '/' !in a && '/' !in b
  {
    forall k | 0 <= k < |a| ensures a[k] != '/' {
      assert a[k] == whole[k];
    }
    forall k | 0 <= k < |b| ensures b[k] != '/' {
      assert b[k] == whole[|a| + k];
    }
  }

  /** Where the dots of a stem followed by an extension are. */
  lemma DotsOfAppend(stem: string, ext: string)
    requires |ext| >= 1 && ext[0] == '.' && '.' !in ext[1..]
    ensures (stem + ext)[|stem|] == '.'
    ensures forall k :: |stem| < k < |stem + ext| ==> (stem + ext)[k] != '.'
  {
    var p := stem + ext;
    forall k | |stem| < k < |p| ensures p[k] != '.' {
      assert p[k] == ext[1..][k - |stem| - 1];
    }
  }

  /** `d` is the last '.' of `s` when `s[d]` is a '.' and none follows it. */
  lemma LastDotAt(s: string, d: nat)
    requires d < |s| && s[d] == '.'
    requires forall k :: d < k < |s| ==> s[k] != '.'
    ensures LastDot(s) == d
  {
  }

  /** A path with an extension has a '.' somewhere: the extension's first
      character. */
  lemma DotInPath(p: string) returns (i: nat)
    requires ExtName(p) != []
    ensures i < |p| && p[i] == '.'
  {
    var b := BaseName(p);
    var d := LastDot(b);
    assert b[d] == '.';
    var e := ContentEnd(p, |p|);
    i := ComponentStart(p, e) + d;
    assert b[d] == p[i];
  }

  /** A string without '/' is its own last component. */
  lemma NoSlashIsOwnBase(p: string)
    requires '/' !in p
    ensures BaseName(p) == p
  {
    assert ContentEnd(p, |p|) == |p| by {
      if |p| > 0 { assert p[|p| - 1] in p; }
    }
    NoSlashStart(p, |p|);
  }

  /** With no '/' in `p[..e]`, the last component starts at 0. */
  lemma {:induction false} NoSlashStart(p: string, e: nat)
    requires e <= |p| && '/' !in p
    ensures ComponentStart(p, e) == 0
  {
    if e > 0 {
      assert p[e - 1] in p;
      NoSlashStart(p, e - 1);
    }
  }

  /** The outcome of `fileFilter`: `cb(null, true)` or `cb(new Error(msg), false)`. */
  datatype FilterDecision = Accept | Reject(message: string)

  /** `fileFilter`: the MIME type must be one of the allowed types exactly, and
      the extension, lower-cased, one of the allowed extensions. */
  function FileFilter(mimeType: string, originalName: string): (r: FilterDecision)
    ensures r.Reject? ==> r.message == InvalidTypeMessage
  {
    if mimeType in AllowedMimeTypes && ToLower(ExtName(originalName)) in AllowedExtensions then Accept
    else Reject(InvalidTypeMessage)
  }

  /** For a name written as a stem and an extension, the filter accepts exactly
      the allowed MIME types together with an extension that is '.pdf' or
      '.txt' in any mix of upper and lower case. */
  lemma FileFilterByParts(mimeType: string, stem: string, ext: string)
    requires stem != [] && '/' !in stem
    requires |ext| >= 2 && ext[0] == '.' && '.' !in ext[1..] && '/' !in ext
    ensures FileFilter(mimeType, stem + ext) == Accept <==>
      (mimeType == "application/pdf" || mimeType == "text/plain")
      && (ToLower(ext) == ".pdf" || ToLower(ext) == ".txt")
  {
    ExtNameOfAppend(stem, ext);
    AllowedLists();
  }

  /** Membership in the two allow-lists, spelled out. */
  lemma AllowedLists()
    ensures forall m :: m in AllowedMimeTypes <==> m == "application/pdf" || m == "text/plain"
    ensures forall e :: e in AllowedExtensions <==> e == ".pdf" || e == ".txt"
  {
  }

  /** The extension check ignores case: a name ending in '.PDF' sent as a PDF
      passes. */
  lemma UpperCaseExtensionAccepted(stem: string)
    requires stem != [] && '/' !in stem
    ensures FileFilter("application/pdf", stem + ".PDF") == Accept
  {
    UpperCasePdf();
    FileFilterByParts("application/pdf", stem, ".PDF");
  }

  lemma UpperCasePdf()
    ensures |".PDF"| >= 2 && ".PDF"[0] == '.' && '.' !in ".PDF"[1..] && '/' !in ".PDF"
    ensures ToLower(".PDF") == ".pdf"
  {
    var lower := ToLower(".PDF");
    assert lower[0] == '.' && lower[1] == 'p' && lower[2] == 'd' && lower[3] == 'f';
  }

  /** A name whose only '.' is its first character has no extension. */
  lemma LeadingDotNameHasNoExtension(rest: string)
    requires '.' !in rest && '/' !in rest
    ensures ExtName("." + rest) == []
  {
    var p := "." + rest;
    assert '/' !in p by {
      forall k | 0 <= k < |p| ensures p[k] != '/' {
        if k > 0 { assert p[k] == rest[k - 1]; }
      }
    }
    NoSlashIsOwnBase(p);
    var d := LastDot(p);
    forall k | 0 < k < |p| ensures p[k] != '.' {
      assert p[k] == rest[k - 1];
    }
    assert p[0] == '.';
    assert d == 0;
  }

  /** Such a name is therefore rejected whatever its MIME type: '.pdf' sent
      as a PDF does not pass. */
  lemma LeadingDotNameRejected(mimeType: string, rest: string)
    requires '.' !in rest && '/' !in rest
    ensures FileFilter(mimeType, "." + rest) == Reject(InvalidTypeMessage)
  {
    LeadingDotNameHasNoExtension(rest);
    var lower := ToLower(ExtName("." + rest));
    assert lower == [];
    AllowedLists();
    assert lower !in AllowedExtensions;
  }

  /** `filename`: the stem, '-', the unique suffix and the original extension
      unchanged (its case included). */
  function StoredName(originalName: string, uniqueSuffix: string): (r: string)
  {
    Stem(originalName) + "-" + uniqueSuffix + ExtName(originalName)
  }

  /** The stem and the extension make up the original last component, and a
      file that has an extension keeps it: `path.extname` of the stored name
      is that of the original name. */
  lemma StoredNameKeepsExtension(originalName: string, uniqueSuffix: string)
    requires ExtName(originalName) != []
    requires '.' !in uniqueSuffix && '/' !in uniqueSuffix
    ensures Stem(originalName) + ExtName(originalName) == BaseName(originalName)
    ensures ExtName(StoredName(originalName, uniqueSuffix)) == ExtName(originalName)
  {
    StemAndExtension(originalName);
    var stem := Stem(originalName) + "-" + uniqueSuffix;
    var ext := ExtName(originalName);
    NoSlashInPieces(Stem(originalName), ext, BaseName(originalName));
    NoSlashInAppend(Stem(originalName), "-");
    NoSlashInAppend(Stem(originalName) + "-", uniqueSuffix);
    if |ext| == 1 {
      // The extension is a lone '.', as in 'notes.': the stored name ends in '.' too.
      StoredNameOfDotOnly(stem, ext);
    } else {
      ExtNameOfAppend(stem, ext);
    }
    assert StoredName(originalName, uniqueSuffix) == stem + ext;
  }

  /** Appending a lone '.' to a stem that has no '/': the extension is '.'. */
  lemma StoredNameOfDotOnly(stem: string, ext: string)
    requires |stem| >= 2 && '/' !in stem && ext == "."
    ensures ExtName(stem + ext) == ext
  {
    var p := stem + ext;
    assert '/' !in p by {
      forall k | 0 <= k < |p| ensures p[k] != '/' {
        if k < |stem| { assert p[k] == stem[k]; }
      }
    }
    NoSlashIsOwnBase(p);
    assert LastDot(p) == |stem|;
    assert p != "..";
    assert p[|stem|..] == ext;
  }

  /** The whole gate as the upload layer applies it: the filter first, then the
      size limit. */
  function UploadDecision(mimeType: string, originalName: string, size: nat): (r: FilterDecision)
    ensures r == Accept ==> size <= 10485760
    ensures r == Accept <==> FileFilter(mimeType, originalName) == Accept && size <= MaxFileSize
  {
    match FileFilter(mimeType, originalName)
    case Reject(m) => Reject(m)
    case Accept => if size > MaxFileSize then Reject(TooLargeMessage) else Accept
  }
}
