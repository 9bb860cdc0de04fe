/**
 * The archive ingestion pipeline of utils/zip_handler.py.
 *
 * `CheckZipSafety` walks the archive's entry listing and reports the first
 * limit it breaks. `ExtractZip` runs it, then writes every file entry into a
 * per-user directory under a sanitised name that collides with nothing already
 * there, and sorts the written paths into a video bucket and an image bucket.
 *
 * The archive is given as its entry listing (or as the failure to read one);
 * the destination directory is the set of names it holds.
 */
module ZipHandler {
  import opened Text
  import opened PosixPath
  import opened Seqs
  import opened Optional

  const MAX_FILES: nat := 100
  const MAX_TOTAL_SIZE: nat := 100 * 1024 * 1024
  const MAX_SINGLE_FILE_SIZE: nat := 50 * 1024 * 1024

  /** `EXTRACTED_DIR` of config.py, `os.path.join("data", "extracted")`. */
  const EXTRACTED_DIR: string := "data/extracted"

  const VIDEO_EXTENSIONS: seq<string> := [".mp4", ".avi", ".mkv", ".mov", ".wmv", ".flv", ".webm", ".m4v", ".3gp"]
  const IMAGE_EXTENSIONS: seq<string> := [".jpg", ".jpeg", ".png", ".gif", ".bmp", ".webp", ".tiff", ".svg"]

  /** What happens when the extractor copies one entry's bytes out of the archive. */
  datatype Payload =
    | Intact                      // read and written in full
    | HeaderCorrupt               // opening the entry raises BadZipFile before the target file exists
    | DataCorrupt                 // the target file is created, then reading the data raises BadZipFile
    | WriteFails(reason: string)  // opening the entry or creating the target file raises another error
    | CopyFails(reason: string)   // the target file is created, then copying raises another error

  /** One record of the listing: the raw, untrusted name, the declared uncompressed size, how its data reads. */
  datatype Entry = Entry(filename: string, fileSize: nat, payload: Payload)

  /** An archive as the zip library sees it: unparsable, unreadable for another reason, or a listing. */
  datatype Archive = Corrupt | Unreadable(reason: string) | Listing(entries: seq<Entry>)

  datatype ZipError =
    | TooManyFiles
    | FileTooLarge(filename: string)
    | TotalTooLarge
    | InvalidZip
    | Failure(reason: string)

  /**
   * The text the source returns for each error: the limit it broke, the name
   * of an oversized entry, or the text of an unexpected exception as is.
   */
  function Message(e: ZipError): (r: string)
    ensures e.TooManyFiles? ==> |r| == 36 && r[32..35] == NatStr(MAX_FILES)
    ensures e.FileTooLarge? ==> |r| == |e.filename| + 37 && r[16..16 + |e.filename|] == e.filename
    ensures e.Failure? ==> r == e.reason
    ensures e.TotalTooLarge? ==> r == "Total uncompressed size too large (max: 100MB)"
    ensures e.InvalidZip? ==> r == "Invalid or corrupted ZIP file"
    ensures !e.Failure? ==> r != []
  {
    match e
    case TooManyFiles => "Too many files in archive (max: " + NatStr(MAX_FILES) + ")"
    case FileTooLarge(name) => "File too large: " + name + " (max: 50MB per file)"
    case TotalTooLarge => "Total uncompressed size too large (max: 100MB)"
    case InvalidZip => "Invalid or corrupted ZIP file"
    case Failure(reason) => reason
  }

  /** The fixed messages tell the errors apart: different refusals read differently. */
  lemma MessagesDistinct(a: ZipError, b: ZipError)
    requires !a.Failure? && !b.Failure? && a != b
    ensures Message(a) != Message(b)
  {
  }

  datatype Verdict = Pass | Fail(error: ZipError)

  datatype Extraction =
    | Failed(error: ZipError)
    | Extracted(extractDir: string, totalFiles: nat, extractedFiles: seq<string>,
                videoFiles: seq<string>, imageFiles: seq<string>)

  // ---------------------------------------------------------------------------
  // The safety validator

  /** `ZipInfo.is_dir`: the entry's name ends with '/'. */
  predicate IsDir(e: Entry)
  {
    |e.filename| > 0 && e.filename[|e.filename| - 1] == SEP
  }

  predicate NotDir(e: Entry) { !IsDir(e) }

  /** The file entries of a listing, in archive order. */
  function Files(es: seq<Entry>): seq<Entry>
  {
    Filter(es, NotDir)
  }

  /** Sum of the declared sizes. */
  function TotalSize(fs: seq<Entry>): nat
  {
    if fs == [] then 0 else TotalSize(fs[..|fs| - 1]) + fs[|fs| - 1].fileSize
  }

  /** The declared size of a prefix never exceeds that of the whole. */
  lemma {:induction false} TotalSizePrefix(fs: seq<Entry>, k: nat)
    requires k <= |fs|
    ensures TotalSize(fs[..k]) <= TotalSize(fs)
    decreases |fs|
  {
    if k < |fs| {
      var init := fs[..|fs| - 1];
      assert fs[..k] == init[..k];
      TotalSizePrefix(init, k);
    } else {
      assert fs[..k] == fs;
    }
  }

  /**
   * The limits as the validator checks them once it has counted file `i`
   * (0-based): the running count `i + 1`, the size of that file, the running total.
   */
  predicate Violates(fs: seq<Entry>, i: nat)
    requires i < |fs|
  {
    i + 1 > MAX_FILES || fs[i].fileSize > MAX_SINGLE_FILE_SIZE || TotalSize(fs[..i + 1]) > MAX_TOTAL_SIZE
  }

  /** The error reported at a violating file: count first, then that file's size, then the total. */
  function ErrorAt(fs: seq<Entry>, i: nat): ZipError
    requires i < |fs|
  {
    if i + 1 > MAX_FILES then TooManyFiles
    else if fs[i].fileSize > MAX_SINGLE_FILE_SIZE then FileTooLarge(fs[i].filename)
    else TotalTooLarge
  }

  ghost predicate IsFirstViolation(fs: seq<Entry>, i: nat)
  {
    i < |fs| && Violates(fs, i) && forall k :: 0 <= k < i ==> !Violates(fs, k)
  }

  ghost predicate WithinLimits(fs: seq<Entry>)
  {
    forall i :: 0 <= i < |fs| ==> !Violates(fs, i)
  }

  /** The archive can be listed and no file in it breaks a limit. */
  ghost predicate Passes(a: Archive)
  {
    a.Listing? && WithinLimits(Files(a.entries))
  }

  /** `err` is what validating `a` reports. */
  ghost predicate RejectedWith(a: Archive, err: ZipError)
  {
    match a
    case Corrupt => err == InvalidZip
    case Unreadable(reason) => err == Failure(reason)
    case Listing(es) => exists i :: IsFirstViolation(Files(es), i) && err == ErrorAt(Files(es), i)
  }

  /**
   * The validator's state after scanning `es[..j]`: `count` files seen, the
   * first `count` files of the listing, with declared sizes summing to
   * `total`, none of them breaking a limit.
   */
  ghost predicate Counted(es: seq<Entry>, j: nat, count: nat, total: nat)
  {
    var fs := Files(es);
    && j <= |es|
    && count <= |fs| && Files(es[..j]) == fs[..count]
    && total == TotalSize(fs[..count])
    && forall i :: 0 <= i < count ==> !Violates(fs, i)
  }

  /** One step of the validator's scan over entry `j`. */
  lemma CountStep(es: seq<Entry>, j: nat, count: nat, total: nat)
    requires Counted(es, j, count, total) && j < |es|
    ensures IsDir(es[j]) ==> Counted(es, j + 1, count, total)
    ensures !IsDir(es[j]) ==>
      var fs := Files(es);
      && count < |fs| && fs[count] == es[j]
      && TotalSize(fs[..count + 1]) == total + es[j].fileSize
      && (Violates(fs, count) ==> IsFirstViolation(fs, count))
      && (!Violates(fs, count) ==> Counted(es, j + 1, count + 1, total + es[j].fileSize))
  {
    var fs := Files(es);
    FilterStep(es, j, NotDir);
    FilterPrefix(es, j + 1, NotDir);
    if !IsDir(es[j]) {
      assert fs[..count + 1] == fs[..count] + [es[j]];
      assert fs[..count + 1][..count] == fs[..count];
    }
  }

  /**
   * `check_zip_safety`: passes exactly when no file breaks a limit, and
   * otherwise reports the error of the first file that does.
   */
  method CheckZipSafety(archive: Archive) returns (v: Verdict)
    ensures v.Pass? <==> Passes(archive)
    ensures v.Fail? ==> RejectedWith(archive, v.error)
  {
    match archive {
      case Corrupt =>
        return Fail(InvalidZip);
      case Unreadable(reason) =>
        return Fail(Failure(reason));
      case Listing(es) =>
        var totalSize: nat := 0;
        var fileCount: nat := 0;
        var j := 0;
        while j < |es|
          invariant Counted(es, j, fileCount, totalSize)
        {
          var info := es[j];
          CountStep(es, j, fileCount, totalSize);
          if !IsDir(info) {
            ghost var i := fileCount;
            fileCount := fileCount + 1;
            totalSize := totalSize + info.fileSize;
            if fileCount > MAX_FILES {
              assert ErrorAt(Files(es), i) == TooManyFiles;
              return Fail(TooManyFiles);
            }
            if info.fileSize > MAX_SINGLE_FILE_SIZE {
              assert ErrorAt(Files(es), i) == FileTooLarge(info.filename);
              return Fail(FileTooLarge(info.filename));
            }
            if totalSize > MAX_TOTAL_SIZE {
              assert ErrorAt(Files(es), i) == TotalTooLarge;
              return Fail(TotalTooLarge);
            }
          }
          j := j + 1;
        }
        assert es[..j] == es;
        assert Files(es)[..fileCount] == Files(es);
        return Pass;
    }
  }

  /** Validation passes iff at most 100 files, each declared at most 50 MiB, together at most 100 MiB. */
  lemma WithinLimitsIff(fs: seq<Entry>)
    ensures WithinLimits(fs) <==>
      && |fs| <= MAX_FILES
      && (forall i :: 0 <= i < |fs| ==> fs[i].fileSize <= MAX_SINGLE_FILE_SIZE)
      && TotalSize(fs) <= MAX_TOTAL_SIZE
  {
    if WithinLimits(fs) {
      if |fs| > MAX_FILES {
        assert Violates(fs, MAX_FILES);
      }
      if |fs| > 0 {
        assert fs[..|fs|] == fs;
        assert !Violates(fs, |fs| - 1);
      }
      forall i | 0 <= i < |fs| ensures fs[i].fileSize <= MAX_SINGLE_FILE_SIZE {
        assert !Violates(fs, i);
      }
    } else {
      var i :| 0 <= i < |fs| && Violates(fs, i);
      TotalSizePrefix(fs, i + 1);
    }
  }

  /** Directory entries play no part in validation: removing one changes nothing. */
  lemma DirectoriesIgnored(a: seq<Entry>, d: Entry, b: seq<Entry>)
    requires IsDir(d)
    ensures Files(a + [d] + b) == Files(a + b)
    ensures Passes(Listing(a + [d] + b)) <==> Passes(Listing(a + b))
  {
    FilterAppend(a + [d], b, NotDir);
    FilterAppend(a, [d], NotDir);
    FilterAppend(a, b, NotDir);
    assert Filter([d], NotDir) == [];
    assert Files(a + [d] + b) == Files(a + b);
  }

  /**
   * The 101st file is refused for the count even when it is tiny, and even
   * when the total would also be exceeded by it: the count is checked first.
   */
  lemma {:induction false} CountCheckedFirst(fs: seq<Entry>)
    requires |fs| > MAX_FILES
    requires forall i :: 0 <= i < MAX_FILES ==> fs[i].fileSize <= MAX_SINGLE_FILE_SIZE
    requires TotalSize(fs[..MAX_FILES]) <= MAX_TOTAL_SIZE
    ensures IsFirstViolation(fs, MAX_FILES) && ErrorAt(fs, MAX_FILES) == TooManyFiles
  {
    var head := fs[..MAX_FILES];
    forall k | 0 <= k < MAX_FILES ensures !Violates(fs, k) {
      assert head[..k + 1] == fs[..k + 1];
      TotalSizePrefix(head, k + 1);
    }
  }

  // ---------------------------------------------------------------------------
  // Naming: basename, sanitising, collision resolution

  /** The characters the sanitising comprehension keeps: alphanumerics and "._- ". */
  predicate IsSafeChar(c: char)
  {
    IsAlnum(c) || c == '.' || c == '_' || c == '-' || c == ' '
  }

  predicate SafeChars(s: string)
  {
    forall i :: 0 <= i < |s| ==> IsSafeChar(s[i])
  }

  /** `"".join(c for c in name if c.isalnum() or c in "._- ")`. */
  function Sanitize(name: string): (r: string)
    ensures SafeChars(r)
    ensures forall c :: c in r <==> c in name && IsSafeChar(c)
    ensures SafeChars(name) ==> r == name
    ensures SelectedInOrder(r, name, IsSafeChar)
  {
    FilterInOrder(name, IsSafeChar);
    assert SafeChars(name) ==> Filter(name, IsSafeChar) == name by {
      if SafeChars(name) {
        FilterAll(name, IsSafeChar);
      }
    }
    assert forall c :: c in Filter(name, IsSafeChar) <==> c in name && IsSafeChar(c) by {
      forall c {
        FilterMembers(name, IsSafeChar, c);
      }
    }
    Filter(name, IsSafeChar)
  }

  /** A name of safe characters contains no path separator of either kind. */
  lemma SafeCharsNoSeparator(s: string)
    requires SafeChars(s)
    ensures NoChar(s, SEP) && SEP !in s && '\\' !in s
  {
  }

  /** The name an entry is written under before collisions are resolved; `n` files were written before it. */
  function SafeName(e: Entry, n: nat): (s: string)
    ensures s != [] && SafeChars(s)
  {
    var s := Sanitize(Basename(e.filename));
    if s == [] then "file_" + NatStr(n) else s
  }

  /** An entry the extractor writes: a file entry whose name has a non-empty basename. */
  predicate Extractable(e: Entry)
  {
    !IsDir(e) && Basename(e.filename) != []
  }

  function Extractables(es: seq<Entry>): seq<Entry>
  {
    Filter(es, Extractable)
  }

  /** The pre-collision name of each written file, in order. */
  function SafeNames(xs: seq<Entry>): seq<string>
  {
    seq(|xs|, i requires 0 <= i < |xs| => SafeName(xs[i], i))
  }

  /** The `k`-th name tried for `safe`: `safe` itself, then `base_k + ext`. */
  function Probe(safe: string, k: nat): string
  {
    if k == 0 then safe else SplitExt(safe).0 + "_" + NatStr(k) + SplitExt(safe).1
  }

  /** Every probe is a different name, so the search always makes progress. */
  lemma ProbeInjective(safe: string, i: nat, j: nat)
    requires Probe(safe, i) == Probe(safe, j)
    ensures i == j
  {
    var base, ext := SplitExt(safe).0, SplitExt(safe).1;
    if i != 0 && j != 0 {
      var p := Probe(safe, i);
      var lo := |base| + 1;
      assert |NatStr(i)| == |NatStr(j)|;
      assert p[lo..lo + |NatStr(i)|] == NatStr(i);
      assert Probe(safe, j)[lo..lo + |NatStr(j)|] == NatStr(j);
      NatStrInjective(i, j);
    }
  }

  /** A concatenation is made of safe characters exactly when both parts are. */
  lemma SafeCharsConcat(a: string, b: string)
    ensures SafeChars(a + b) <==> SafeChars(a) && SafeChars(b)
  {
    if SafeChars(a + b) {
      forall i | 0 <= i < |a| ensures IsSafeChar(a[i]) {
        assert a[i] == (a + b)[i];
      }
      forall i | 0 <= i < |b| ensures IsSafeChar(b[i]) {
        assert b[i] == (a + b)[|a| + i];
      }
    }
  }

  /** A probe of a safe, non-empty name is itself safe and non-empty. */
  lemma ProbeSafe(safe: string, k: nat)
    requires safe != [] && SafeChars(safe)
    ensures Probe(safe, k) != [] && SafeChars(Probe(safe, k))
  {
    if k != 0 {
      var base, ext := SplitExt(safe).0, SplitExt(safe).1;
      SafeCharsConcat(base, ext);
      SafeCharsConcat(base, "_");
      SafeCharsConcat(base + "_", NatStr(k));
      SafeCharsConcat(base + "_" + NatStr(k), ext);
    }
  }

  predicate NoChar(s: string, c: char)
  {
    forall i :: 0 <= i < |s| ==> s[i] != c
  }

  /** A concatenation avoids `c` exactly when both parts do. */
  lemma NoCharConcat(a: string, b: string, c: char)
    ensures NoChar(a + b, c) <==> NoChar(a, c) && NoChar(b, c)
  {
    if NoChar(a + b, c) {
      forall i | 0 <= i < |a| ensures a[i] != c {
        assert a[i] == (a + b)[i];
      }
      forall i | 0 <= i < |b| ensures b[i] != c {
        assert b[i] == (a + b)[|a| + i];
      }
    }
  }

  /**
   * An extension (a dot and no further dots) put after a separator-free stem
   * that does not end in a dot is what `splitext` splits off again.
   */
  lemma ExtAfterStem(pre: string, e: string)
    requires NoChar(pre, SEP) && NoChar(e, SEP)
    requires pre != [] && pre[|pre| - 1] != '.'
    requires e != [] && e[0] == '.' && NoChar(e[1..], '.')
    ensures SplitExt(pre + e) == (pre, e)
  {
    var c := pre + e;
    var d := |pre|;
    NoCharConcat(pre, e, SEP);
    LastIndexIs(c, SEP, -1);
    forall i | d < i < |c| ensures c[i] != '.' {
      assert c[i] == e[1..][i - d - 1];
    }
    assert c[d] == '.';
    LastIndexIs(c, '.', d);
    assert c[d - 1] == pre[d - 1];
    assert NonDotBetween(c, -1, d);
    assert c[..d] == pre && c[d..] == e;
  }

  /** Appending a dot-free, separator-free `m` to a name with no extension leaves it without one. */
  lemma AppendKeepsNoExt(p: string, m: string)
    requires NoChar(p, SEP) && NoChar(m, SEP) && NoChar(m, '.')
    requires SplitExt(p).1 == []
    ensures SplitExt(p + m).1 == []
  {
    var c := p + m;
    NoCharConcat(p, m, SEP);
    LastIndexIs(c, SEP, -1);
    LastIndexIs(p, SEP, -1);
    var dot := LastIndex(p, '.');
    forall i | dot < i < |c| ensures c[i] != '.' {
      if i < |p| {
        assert c[i] == p[i];
      } else {
        assert c[i] == m[i - |p|];
      }
    }
    if dot >= 0 {
      assert c[dot] == p[dot];
    }
    LastIndexIs(c, '.', dot);
    if dot > -1 {
      assert !NonDotBetween(p, -1, dot);
      assert forall i :: 0 <= i < dot ==> c[i] == p[i];
    }
  }

  /** A renamed file keeps the extension of the name it was derived from. */
  lemma ProbeKeepsExt(safe: string, k: nat)
    requires NoChar(safe, SEP)
    ensures SplitExt(Probe(safe, k)).1 == SplitExt(safe).1
  {
    if k != 0 {
      var base, ext := SplitExt(safe).0, SplitExt(safe).1;
      var digits := NatStr(k);
      var pre := base + "_" + digits;
      NoCharConcat(base, ext, SEP);
      NoCharConcat(base, "_", SEP);
      NoCharConcat(base + "_", digits, SEP);
      assert NoChar(digits, '.');
      ExtShape(safe);
      if ext != [] {
        ExtAfterStem(pre, ext);
      } else {
        assert base == safe;
        AppendKeepsNoExt(safe, "_");
        AppendKeepsNoExt(safe + "_", digits);
        assert pre + ext == pre;
      }
    }
  }

  /** Probe `k` is the first probe of `safe` that `dir` does not hold. */
  ghost predicate FirstFreeAt(dir: set<string>, safe: string, k: nat)
  {
    Probe(safe, k) !in dir && forall j :: 0 <= j < k ==> Probe(safe, j) in dir
  }

  /** `name` is the first probe of `safe` that `dir` does not hold. */
  ghost predicate FirstFree(dir: set<string>, safe: string, name: string)
  {
    exists k :: name == Probe(safe, k) && FirstFreeAt(dir, safe, k)
  }

  /**
   * The collision loop: tries `safe`, then `base_1 + ext`, `base_2 + ext`, ...
   * and returns the first name the directory does not hold.
   */
  method ResolveName(safe: string, dir: set<string>) returns (target: string, ghost k: nat)
    ensures target !in dir
    ensures safe !in dir ==> target == safe
    ensures target == Probe(safe, k) && FirstFreeAt(dir, safe, k)
  {
    target := safe;
    var counter: nat := 1;
    var baseName, ext := SplitExt(safe).0, SplitExt(safe).1;
    ghost var seen: set<string> := {};
    while target in dir
      invariant counter >= 1
      invariant target == Probe(safe, counter - 1)
      invariant forall j :: 0 <= j < counter - 1 ==> Probe(safe, j) in dir
      invariant Probed(seen, safe, counter - 1)
      invariant seen <= dir
      decreases |dir - seen|
    {
      ProbeTaken(seen, dir, safe, counter - 1);
      seen := seen + {target};
      target := baseName + "_" + NatStr(counter) + ext;
      counter := counter + 1;
    }
    k := counter - 1;
  }

  /** A taken probe joins the probes tried, which brings the search closer to exhausting `dir`. */
  lemma ProbeTaken(seen: set<string>, dir: set<string>, safe: string, n: nat)
    requires Probed(seen, safe, n) && seen <= dir && Probe(safe, n) in dir
    requires forall j :: 0 <= j < n ==> Probe(safe, j) in dir
    ensures Probed(seen + {Probe(safe, n)}, safe, n + 1) && seen + {Probe(safe, n)} <= dir
    ensures forall j :: 0 <= j < n + 1 ==> Probe(safe, j) in dir
    ensures |dir - (seen + {Probe(safe, n)})| < |dir - seen|
  {
    ProbeNotProbed(seen, safe, n);
    assert dir - seen == (dir - (seen + {Probe(safe, n)})) + {Probe(safe, n)};
  }

  /** Every name in `seen` is one of the first `n` probes of `safe`. */
  ghost predicate Probed(seen: set<string>, safe: string, n: nat)
  {
    forall x :: x in seen ==> exists j :: 0 <= j < n && x == Probe(safe, j)
  }

  /** Probe `n` is none of the probes before it, and adding it keeps the record of probes tried. */
  lemma ProbeNotProbed(seen: set<string>, safe: string, n: nat)
    requires Probed(seen, safe, n)
    ensures Probe(safe, n) !in seen
    ensures Probed(seen + {Probe(safe, n)}, safe, n + 1)
  {
    forall j | 0 <= j < n ensures Probe(safe, j) != Probe(safe, n) {
      if Probe(safe, j) == Probe(safe, n) {
        ProbeInjective(safe, j, n);
      }
    }
  }

  /** The set of names in a sequence. */
  function Elems(ws: seq<string>): set<string>
  {
    set w | w in ws
  }

  /**
   * Each written name is the first free probe of its file's sanitised name,
   * against the directory as it stood when that file was written: the names
   * it held at the start plus the names written before.
   */
  ghost predicate NamedAs(init: set<string>, written: seq<string>, safes: seq<string>)
  {
    && |written| <= |safes|
    && forall i :: 0 <= i < |written| ==> FirstFree(init + Elems(written[..i]), safes[i], written[i])
  }

  lemma NamedAsExtend(init: set<string>, written: seq<string>, safes: seq<string>, name: string)
    requires NamedAs(init, written, safes) && |written| < |safes|
    requires FirstFree(init + Elems(written), safes[|written|], name)
    ensures NamedAs(init, written + [name], safes)
  {
    var w := written + [name];
    forall i | 0 <= i < |w| ensures FirstFree(init + Elems(w[..i]), safes[i], w[i]) {
      if i < |written| {
        assert w[..i] == written[..i] && w[i] == written[i];
      } else {
        assert w[..i] == written;
      }
    }
  }

  /**
   * Written names never overwrite: they are pairwise distinct and none of them
   * was in the directory before extraction began.
   */
  lemma NamedDistinct(init: set<string>, written: seq<string>, safes: seq<string>)
    requires NamedAs(init, written, safes)
    ensures forall i :: 0 <= i < |written| ==> written[i] !in init
    ensures forall i, j :: 0 <= i < j < |written| ==> written[i] != written[j]
  {
    forall i | 0 <= i < |written| ensures written[i] !in init + Elems(written[..i]) {
      var k :| written[i] == Probe(safes[i], k) && FirstFreeAt(init + Elems(written[..i]), safes[i], k);
    }
    forall i, j | 0 <= i < j < |written| ensures written[i] != written[j] {
      assert written[..j][i] == written[i];
      assert written[i] in Elems(written[..j]);
    }
  }

  /**
   * Written names are safe file names: non-empty, made of alphanumerics and
   * "._- " only (so no '/' and no '\'), and never "." or ".." when those are
   * among the names the directory started with.
   */
  lemma NamedSafe(init: set<string>, written: seq<string>, xs: seq<Entry>)
    requires NamedAs(init, written, SafeNames(xs))
    ensures forall i :: 0 <= i < |written| ==>
      written[i] != [] && SafeChars(written[i]) && SEP !in written[i] && '\\' !in written[i]
    ensures "." in init && ".." in init ==>
      forall i :: 0 <= i < |written| ==> written[i] != "." && written[i] != ".."
  {
    NamedDistinct(init, written, SafeNames(xs));
    forall i | 0 <= i < |written|
      ensures written[i] != [] && SafeChars(written[i]) && SEP !in written[i] && '\\' !in written[i]
    {
      var safe := SafeNames(xs)[i];
      var k :| written[i] == Probe(safe, k) && FirstFreeAt(init + Elems(written[..i]), safe, k);
      ProbeSafe(safe, k);
      SafeCharsNoSeparator(written[i]);
    }
  }

  // ---------------------------------------------------------------------------
  // Paths and classification

  /** The per-request directory `EXTRACTED_DIR/<user id>/<token>`. */
  function ExtractDir(userId: int, token: string): string
  {
    Join(Join(EXTRACTED_DIR, IntStr(userId)), token)
  }

  /** The full path of each written name, in order. */
  function Paths(dir: string, ws: seq<string>): (r: seq<string>)
    ensures |r| == |ws|
    ensures forall i :: 0 <= i < |ws| ==> r[i] == Join(dir, ws[i])
  {
    if ws == [] then [] else Paths(dir, ws[..|ws| - 1]) + [Join(dir, ws[|ws| - 1])]
  }

  function ExtLower(name: string): string
  {
    Lower(SplitExt(name).1)
  }

  /** The bucket a written file is reported in, besides the list of all files. */
  datatype Kind = Video | Image | Other

  /** Classification by lower-cased extension; the image test only runs when the video test failed (`elif`). */
  function KindOf(name: string): Kind
  {
    var ext := ExtLower(name);
    if ext in VIDEO_EXTENSIONS then Video
    else if ext in IMAGE_EXTENSIONS then Image
    else Other
  }

  /** A probe is classified by the extension of the safe name it was made from. */
  lemma KindOfProbe(safe: string, k: nat)
    requires SafeChars(safe)
    ensures KindOf(Probe(safe, k)) == KindOf(safe)
  {
    SafeCharsNoSeparator(safe);
    ProbeKeepsExt(safe, k);
  }

  /** The paths of the written names of kind `k`, in the order they were written. */
  function Bucket(dir: string, ws: seq<string>, k: Kind): (r: seq<string>)
    ensures |r| <= |ws|
  {
    if ws == [] then []
    else
      var w := ws[|ws| - 1];
      Bucket(dir, ws[..|ws| - 1], k) + (if KindOf(w) == k then [Join(dir, w)] else [])
  }

  lemma PathsAppend(dir: string, ws: seq<string>, w: string)
    ensures Paths(dir, ws + [w]) == Paths(dir, ws) + [Join(dir, w)]
  {
    assert (ws + [w])[..|ws|] == ws;
  }

  lemma BucketAppend(dir: string, ws: seq<string>, w: string, k: Kind)
    ensures Bucket(dir, ws + [w], k) == Bucket(dir, ws, k) + (if KindOf(w) == k then [Join(dir, w)] else [])
  {
    assert (ws + [w])[..|ws|] == ws;
  }

  /** A path is in the bucket of kind `k` exactly when it is the path of a written name of that kind. */
  lemma {:induction false} BucketMembers(dir: string, ws: seq<string>, k: Kind, p: string)
    ensures p in Bucket(dir, ws, k) <==> exists i :: 0 <= i < |ws| && KindOf(ws[i]) == k && p == Join(dir, ws[i])
    decreases |ws|
  {
    hide KindOf;
    if ws != [] {
      var n := |ws| - 1;
      var init := ws[..n];
      BucketMembers(dir, init, k, p);
      if exists i :: 0 <= i < |ws| && KindOf(ws[i]) == k && p == Join(dir, ws[i]) {
        var i :| 0 <= i < |ws| && KindOf(ws[i]) == k && p == Join(dir, ws[i]);
        if i < n {
          assert KindOf(init[i]) == k && p == Join(dir, init[i]);
        }
      }
      if exists i :: 0 <= i < n && KindOf(init[i]) == k && p == Join(dir, init[i]) {
        var i :| 0 <= i < n && KindOf(init[i]) == k && p == Join(dir, init[i]);
        assert KindOf(ws[i]) == k && p == Join(dir, ws[i]);
      }
    }
  }

  /** Each written name lands in at most one of the two buckets. */
  lemma {:induction false} BucketSizes(dir: string, ws: seq<string>)
    ensures |Bucket(dir, ws, Video)| + |Bucket(dir, ws, Image)| <= |ws|
    decreases |ws|
  {
    if ws != [] {
      BucketSizes(dir, ws[..|ws| - 1]);
    }
  }

  /** Accepts the paths whose file name is of kind `k`. */
  function OfKind(k: Kind): string -> bool
  {
    (p: string) => KindOf(Basename(p)) == k
  }

  /**
   * A bucket is the list of extracted paths with the paths of other kinds
   * filtered out: the same paths in the same order.
   */
  lemma {:induction false} BucketFilter(dir: string, ws: seq<string>, k: Kind)
    requires forall i :: 0 <= i < |ws| ==> SEP !in ws[i]
    ensures Bucket(dir, ws, k) == Filter(Paths(dir, ws), OfKind(k))
    decreases |ws|
  {
    hide KindOf;
    if ws != [] {
      var n := |ws| - 1;
      var init := ws[..n];
      var paths := Paths(dir, ws);
      BucketFilter(dir, init, k);
      assert paths[..n] == Paths(dir, init);
      JoinBasename(dir, ws[n]);
      assert OfKind(k)(paths[n]) == (KindOf(ws[n]) == k);
      assert Filter(paths, OfKind(k)) == Filter(Paths(dir, init), OfKind(k)) + (if OfKind(k)(paths[n]) then [paths[n]] else []);
    }
  }

  /** The success result for the names written into `dir`. */
  function Outcome(dir: string, ws: seq<string>): Extraction
  {
    Extracted(dir, |ws|, Paths(dir, ws), Bucket(dir, ws, Video), Bucket(dir, ws, Image))
  }

  /**
   * The result invariants: the count is the number of paths; paths are
   * pairwise distinct and each lies directly inside the extraction directory;
   * the two buckets share no path, hold only listed paths, and together hold
   * at most all of them.
   */
  lemma OutcomeInvariants(dir: string, ws: seq<string>)
    requires forall i :: 0 <= i < |ws| ==> SEP !in ws[i]
    requires forall i, j :: 0 <= i < j < |ws| ==> ws[i] != ws[j]
    ensures var r := Outcome(dir, ws);
      && r.totalFiles == |r.extractedFiles| == |ws|
      && (forall i :: 0 <= i < |r.extractedFiles| ==> Basename(r.extractedFiles[i]) == ws[i])
      && (forall i, j :: 0 <= i < j < |r.extractedFiles| ==> r.extractedFiles[i] != r.extractedFiles[j])
      && (forall p :: p in r.videoFiles ==> p !in r.imageFiles)
      && (forall p :: p in r.videoFiles || p in r.imageFiles ==> p in r.extractedFiles)
      && |r.videoFiles| + |r.imageFiles| <= r.totalFiles
  {
    var paths := Paths(dir, ws);
    forall i | 0 <= i < |ws| ensures Basename(paths[i]) == ws[i] {
      JoinBasename(dir, ws[i]);
    }
    forall i, j | 0 <= i < j < |ws| ensures paths[i] != paths[j] {
      if paths[i] == paths[j] {
        JoinInjective(dir, ws[i], ws[j]);
      }
    }
    forall p | p in Bucket(dir, ws, Video) || p in Bucket(dir, ws, Image) ensures p in paths {
      BucketMembers(dir, ws, Video, p);
      BucketMembers(dir, ws, Image, p);
      var i :| 0 <= i < |ws| && KindOf(ws[i]) != Other && p == Join(dir, ws[i]);
      assert paths[i] == p;
    }
    forall p | p in Bucket(dir, ws, Video) ensures p !in Bucket(dir, ws, Image) {
      BucketMembers(dir, ws, Video, p);
      BucketMembers(dir, ws, Image, p);
      var a :| 0 <= a < |ws| && KindOf(ws[a]) == Video && p == Join(dir, ws[a]);
    }
    BucketSizes(dir, ws);
  }

  /**
   * Each bucket is the list of extracted paths with the other kinds filtered
   * out: exactly the paths of its kind, in the order they were extracted.
   */
  lemma BucketsInOrder(dir: string, ws: seq<string>)
    requires forall i :: 0 <= i < |ws| ==> SEP !in ws[i]
    ensures var r := Outcome(dir, ws);
      && r.videoFiles == Filter(r.extractedFiles, OfKind(Video))
      && r.imageFiles == Filter(r.extractedFiles, OfKind(Image))
      && SelectedInOrder(r.videoFiles, r.extractedFiles, OfKind(Video))
      && SelectedInOrder(r.imageFiles, r.extractedFiles, OfKind(Image))
  {
    hide KindOf;
    BucketFilter(dir, ws, Video);
    BucketFilter(dir, ws, Image);
    FilterInOrder(Paths(dir, ws), OfKind(Video));
    FilterInOrder(Paths(dir, ws), OfKind(Image));
  }

  // ---------------------------------------------------------------------------
  // The extractor

  predicate AllIntact(xs: seq<Entry>)
  {
    forall i :: 0 <= i < |xs| ==> xs[i].payload.Intact?
  }

  /** Entry `i` is the first whose data cannot be copied. */
  predicate FirstBroken(xs: seq<Entry>, i: nat)
  {
    i < |xs| && !xs[i].payload.Intact? && forall k :: 0 <= k < i ==> xs[k].payload.Intact?
  }

  /**
   * One step of the extractor's scan: entry `j` either is not extractable and
   * leaves the extractable prefix as it was, or is the next extractable entry.
   */
  lemma ScanStep(es: seq<Entry>, j: nat, n: nat)
    requires j < |es| && n <= |Extractables(es)|
    requires Extractables(es[..j]) == Extractables(es)[..n]
    requires AllIntact(Extractables(es)[..n])
    ensures !Extractable(es[j]) ==> Extractables(es[..j + 1]) == Extractables(es)[..n]
    ensures Extractable(es[j]) ==>
      && n < |Extractables(es)| && Extractables(es)[n] == es[j]
      && Extractables(es[..j + 1]) == Extractables(es)[..n + 1]
      && (es[j].payload.Intact? ==> AllIntact(Extractables(es)[..n + 1]))
      && (!es[j].payload.Intact? ==> FirstBroken(Extractables(es), n))
  {
    hide Extractable;
    var xs := Extractables(es);
    FilterStep(es, j, Extractable);
    FilterPrefix(es, j + 1, Extractable);
    if Extractable(es[j]) {
      assert xs[..n + 1] == xs[..n] + [es[j]];
    }
  }

  lemma ElemsAppend(ws: seq<string>, w: string)
    ensures Elems(ws + [w]) == Elems(ws) + {w}
  {
    assert forall x :: x in ws + [w] <==> x in ws || x == w;
  }

  /** A failed copy that leaves its (partial) target file on disk. */
  predicate LeavesFile(p: Payload)
  {
    p.DataCorrupt? || p.CopyFails?
  }

  /** The error a copy failure is reported as: the zip library's error, or the text of any other. */
  function PayloadError(p: Payload): ZipError
  {
    match p
    case WriteFails(reason) => Failure(reason)
    case CopyFails(reason) => Failure(reason)
    case _ => InvalidZip
  }

  /**
   * `extract_zip`. Validation runs first; if it fails, its error is returned,
   * no directory is created and nothing is written. Otherwise the directory
   * (which may already hold `existing` names, plus "." and "..") receives one
   * file per extractable entry, each under the first free probe of its
   * sanitised name, until every entry is written (success) or the first
   * entry whose data cannot be copied aborts the whole request (failure; the
   * files written so far stay on disk).
   */
  method ExtractZip(archive: Archive, userId: int, token: string, existing: set<string>)
    returns (res: Extraction, created: bool, written: seq<string>)
    ensures !Passes(archive) ==> res.Failed? && RejectedWith(archive, res.error) && !created && written == []
    ensures Passes(archive) ==>
      var xs := Extractables(archive.entries);
      && created
      && NamedAs(existing + {".", ".."}, written, SafeNames(xs))
      && (res.Extracted? <==> AllIntact(xs))
      && (res.Extracted? ==> |written| == |xs| && res == Outcome(ExtractDir(userId, token), written))
      && (res.Failed? ==> exists i: nat :: FirstBroken(xs, i) && res.error == PayloadError(xs[i].payload)
                           && |written| == (if LeavesFile(xs[i].payload) then i + 1 else i))
  {
    var verdict := CheckZipSafety(archive);
    if verdict.Fail? {
      return Failed(verdict.error), false, [];
    }
    created := true;
    res, written := WriteEntries(archive.entries, ExtractDir(userId, token), existing + {".", ".."});
  }

  /**
   * What a successful `extract_zip` reports, for any result `ExtractZip`
   * promises on success: `total_files` counts the extracted paths; each path
   * lies directly in the extraction directory under a non-empty, sanitised
   * name that was not there before and is neither "." nor ".."; no two paths
   * are equal; and the video and image lists are disjoint and list exactly
   * the extracted paths of their kind, in extraction order.
   */
  lemma ExtractedInvariants(archive: Archive, userId: int, token: string, existing: set<string>,
                            res: Extraction, written: seq<string>)
    requires Passes(archive) && res.Extracted?
    requires NamedAs(existing + {".", ".."}, written, SafeNames(Extractables(archive.entries)))
    requires res == Outcome(ExtractDir(userId, token), written)
    ensures res.totalFiles == |res.extractedFiles| == |written|
    ensures forall i :: 0 <= i < |res.extractedFiles| ==>
      var n := Basename(res.extractedFiles[i]);
      && n == written[i] && n != [] && SafeChars(n)
      && n !in existing && n != "." && n != ".."
    ensures forall i, j :: 0 <= i < j < |res.extractedFiles| ==> res.extractedFiles[i] != res.extractedFiles[j]
    ensures forall p :: p in res.videoFiles ==> p !in res.imageFiles
    ensures SelectedInOrder(res.videoFiles, res.extractedFiles, OfKind(Video))
    ensures SelectedInOrder(res.imageFiles, res.extractedFiles, OfKind(Image))
  {
    hide KindOf, Outcome, NamedAs;
    WrittenNames(existing, written, Extractables(archive.entries));
    OutcomeInvariants(ExtractDir(userId, token), written);
    BucketsInOrder(ExtractDir(userId, token), written);
  }

  /** The names the extraction loop chose, as `NamedSafe` and `NamedDistinct` give them. */
  lemma WrittenNames(existing: set<string>, written: seq<string>, xs: seq<Entry>)
    requires NamedAs(existing + {".", ".."}, written, SafeNames(xs))
    ensures forall i :: 0 <= i < |written| ==>
      && written[i] != [] && SafeChars(written[i]) && SEP !in written[i]
      && written[i] !in existing && written[i] != "." && written[i] != ".."
    ensures forall i, j :: 0 <= i < j < |written| ==> written[i] != written[j]
  {
    var init := existing + {".", ".."};
    NamedSafe(init, written, xs);
    NamedDistinct(init, written, SafeNames(xs));
  }

  /**
   * The naming half of the extraction loop's state after scanning `es[..j]`:
   * the entries written so far are the extractable entries of that prefix,
   * all intact, named by the collision rule, and the directory holds `init`
   * plus the written names.
   */
  ghost predicate Scanned(es: seq<Entry>, j: nat, init: set<string>, written: seq<string>, names: set<string>)
  {
    var xs := Extractables(es);
    && j <= |es|
    && |written| <= |xs| && Extractables(es[..j]) == xs[..|written|]
    && AllIntact(xs[..|written|])
    && NamedAs(init, written, SafeNames(xs))
    && names == init + Elems(written)
  }

  /** The result half: the three result lists are built from the written names. */
  ghost predicate Listed(dir: string, written: seq<string>, extracted: seq<string>, videos: seq<string>, images: seq<string>)
  {
    && extracted == Paths(dir, written)
    && videos == Bucket(dir, written, Video)
    && images == Bucket(dir, written, Image)
  }

  /** The extraction loop's variables: names written, the directory listing, and the three result lists. */
  datatype Scan = Scan(written: seq<string>, names: set<string>, extracted: seq<string>, videos: seq<string>, images: seq<string>)

  ghost predicate Progress(es: seq<Entry>, j: nat, init: set<string>, dir: string, st: Scan)
  {
    Scanned(es, j, init, st.written, st.names) && Listed(dir, st.written, st.extracted, st.videos, st.images)
  }

  lemma ProgressSkip(es: seq<Entry>, j: nat, init: set<string>, dir: string, st: Scan)
    requires Progress(es, j, init, dir, st)
    requires j < |es| && !Extractable(es[j])
    ensures Progress(es, j + 1, init, dir, st)
  {
    ScanStep(es, j, |st.written|);
  }

  /** Writing the next intact entry under the first free probe of its safe name keeps the naming state. */
  lemma ScannedWrite(es: seq<Entry>, j: nat, init: set<string>, written: seq<string>, names: set<string>,
                     target: string, k: nat)
    requires Scanned(es, j, init, written, names)
    requires j < |es| && Extractable(es[j]) && es[j].payload.Intact?
    requires target == Probe(SafeName(es[j], |written|), k) && FirstFreeAt(names, SafeName(es[j], |written|), k)
    ensures Scanned(es, j + 1, init, written + [target], names + {target})
  {
    hide Extractable, SafeName;
    ScanStep(es, j, |written|);
    NamedAsExtend(init, written, SafeNames(Extractables(es)), target);
    ElemsAppend(written, target);
  }

  /**
   * The next extractable entry is broken: the scan stops at it, and the names
   * written so far, with or without its own name, still follow the naming rule.
   */
  lemma ScannedBreak(es: seq<Entry>, j: nat, init: set<string>, written: seq<string>, names: set<string>,
                     target: string, k: nat)
    requires Scanned(es, j, init, written, names)
    requires j < |es| && Extractable(es[j]) && !es[j].payload.Intact?
    requires target == Probe(SafeName(es[j], |written|), k) && FirstFreeAt(names, SafeName(es[j], |written|), k)
    ensures var xs, i := Extractables(es), |written|;
      && FirstBroken(xs, i) && xs[i] == es[j]
      && NamedAs(init, written, SafeNames(xs))
      && NamedAs(init, written + [target], SafeNames(xs))
  {
    ScanStep(es, j, |written|);
    NamedAsExtend(init, written, SafeNames(Extractables(es)), target);
  }

  /** Appending one written name appends its path, and files the path by the name's kind. */
  lemma ListedWrite(dir: string, written: seq<string>, extracted: seq<string>, videos: seq<string>, images: seq<string>,
                    target: string, videos': seq<string>, images': seq<string>)
    requires Listed(dir, written, extracted, videos, images)
    requires videos' == if KindOf(target) == Video then videos + [Join(dir, target)] else videos
    requires images' == if KindOf(target) == Image then images + [Join(dir, target)] else images
    ensures Listed(dir, written + [target], extracted + [Join(dir, target)], videos', images')
  {
    PathsAppend(dir, written, target);
    BucketAppend(dir, written, target, Video);
    BucketAppend(dir, written, target, Image);
  }

  /** Once every entry is scanned, every extractable entry has been written. */
  lemma ProgressDone(es: seq<Entry>, init: set<string>, dir: string, st: Scan)
    requires Progress(es, |es|, init, dir, st)
    ensures |st.written| == |Extractables(es)| && AllIntact(Extractables(es))
    ensures Extracted(dir, |st.extracted|, st.extracted, st.videos, st.images) == Outcome(dir, st.written)
  {
    assert es[..|es|] == es;
  }

  /**
   * The name an extractable entry is written under: its sanitised basename,
   * or "file_<n>" when sanitising leaves nothing (`n` counts the files
   * already extracted), made unique against the directory's `names`.
   */
  method NameFor(e: Entry, n: nat, names: set<string>) returns (safeName: string, target: string, ghost k: nat)
    ensures safeName == SafeName(e, n)
    ensures target == Probe(safeName, k) && FirstFreeAt(names, safeName, k)
  {
    safeName := Sanitize(Basename(e.filename));
    if safeName == [] {
      safeName := "file_" + NatStr(n);
    }
    target, k := ResolveName(safeName, names);
  }

  /** Appends the path of a written file to the videos or to the images, by the lower-cased extension of its name. */
  method FileByKind(name: string, path: string, videos: seq<string>, images: seq<string>)
    returns (videos': seq<string>, images': seq<string>)
    ensures videos' == if KindOf(name) == Video then videos + [path] else videos
    ensures images' == if KindOf(name) == Image then images + [path] else images
  {
    var extLower := Lower(SplitExt(name).1);
    videos', images' := videos, images;
    if extLower in VIDEO_EXTENSIONS {
      videos' := videos + [path];
    } else if extLower in IMAGE_EXTENSIONS {
      images' := images + [path];
    }
  }

  /** Writes the intact entry `j` under `target`, adds it to the directory listing and files its path. */
  method WriteIntact(es: seq<Entry>, j: nat, init: set<string>, dir: string, st: Scan,
                     safeName: string, target: string, ghost k: nat) returns (next: Scan)
    requires j < |es| && Progress(es, j, init, dir, st)
    requires Extractable(es[j]) && es[j].payload.Intact?
    requires safeName == SafeName(es[j], |st.written|)
    requires target == Probe(safeName, k) && FirstFreeAt(st.names, safeName, k)
    ensures Progress(es, j + 1, init, dir, next)
  {
    hide KindOf;
    var path := Join(dir, target);
    ScannedWrite(es, j, init, st.written, st.names, target, k);
    KindOfProbe(safeName, k);
    var videos, images := FileByKind(safeName, path, st.videos, st.images);
    ListedWrite(dir, st.written, st.extracted, st.videos, st.images, target, videos, images);
    next := Scan(st.written + [target], st.names + {target}, st.extracted + [path], videos, images);
  }

  /**
   * One pass of the extraction loop over entry `j`: skips a directory entry
   * or an entry whose basename is empty; otherwise picks the name, then
   * either writes the file and files its path by extension, or reports the
   * copy failure that aborts the request (when the failure comes during the
   * copy itself, the target file already exists).
   */
  method WriteEntry(es: seq<Entry>, j: nat, init: set<string>, dir: string, st: Scan)
    returns (next: Scan, failure: Option<ZipError>)
    requires j < |es| && Progress(es, j, init, dir, st)
    ensures failure.None? ==> Progress(es, j + 1, init, dir, next)
    ensures failure.Some? ==>
      var xs, i := Extractables(es), |st.written|;
      && FirstBroken(xs, i) && failure.value == PayloadError(xs[i].payload)
      && NamedAs(init, next.written, SafeNames(xs))
      && |next.written| == (if LeavesFile(xs[i].payload) then i + 1 else i)
  {
    hide KindOf;
    var info := es[j];
    if !Extractable(info) {
      ProgressSkip(es, j, init, dir, st);
      return st, None;
    }
    assert |st.extracted| == |st.written|;
    var safeName, target, k := NameFor(info, |st.extracted|, st.names);
    if info.payload.Intact? {
      next := WriteIntact(es, j, init, dir, st, safeName, target, k);
      return next, None;
    }
    ScannedBreak(es, j, init, st.written, st.names, target, k);
    next := if LeavesFile(info.payload) then st.(written := st.written + [target]) else st;
    failure := Some(PayloadError(info.payload));
  }

  /**
   * The extraction loop of `extract_zip`, after validation and directory
   * creation: writes the extractable entries of `es` into `dir`, which
   * already holds the names `init`.
   */
  method WriteEntries(es: seq<Entry>, dir: string, init: set<string>) returns (res: Extraction, written: seq<string>)
    ensures var xs := Extractables(es);
      && NamedAs(init, written, SafeNames(xs))
      && (res.Extracted? <==> AllIntact(xs))
      && (res.Extracted? ==> |written| == |xs| && res == Outcome(dir, written))
      && (res.Failed? ==> exists i: nat :: FirstBroken(xs, i) && res.error == PayloadError(xs[i].payload)
                           && |written| == (if LeavesFile(xs[i].payload) then i + 1 else i))
  {
    hide KindOf, Sanitize, SafeName, Extractable;
    var st := Scan([], init, [], [], []);
    var j := 0;
    assert Scanned(es, j, init, st.written, st.names);
    while j < |es|
      invariant j <= |es| && Progress(es, j, init, dir, st)
    {
      var next, failure := WriteEntry(es, j, init, dir, st);
      if failure.Some? {
        return Failed(failure.value), next.written;
      }
      st := next;
      j := j + 1;
    }
    ProgressDone(es, init, dir, st);
    res := Extracted(dir, |st.extracted|, st.extracted, st.videos, st.images);
    written := st.written;
  }
}
