/**
  The `FileUpload` component (registry/ui/file-upload.tsx): validation of candidate
  files against a size limit and an `accept` list, the staged list of accepted files,
  removal from that list, and the drag-over flag. The `onError` and `onFileSelect`
  callbacks become results: the list of errors reported, in order, and the batch
  handed to `onFileSelect` (None when it is not called).
 */
module FileUploadUi {
  import opened Wrappers
  import opened Strings

  /** A browser `File`: only the attributes the component reads. */
  datatype FileRec = FileRec(name: string, size: nat, mimeType: string)

  /** The behavioural props. `accept` and `maxSizeMB` may be absent; `multiple` defaults to false. */
  datatype Props = Props(accept: Option<string>, multiple: bool, maxSizeMB: Option<nat>)

  /** The argument of one `onError` call. */
  datatype UploadError =
    | SizeExceeded(fileName: string, maxSizeMB: nat)
    | TypeNotAccepted(fileName: string)
  {
    function FileName(): string
    {
      match this
      case SizeExceeded(n, _) => n
      case TypeNotAccepted(n) => n
    }
  }

  /** What one call of `processFiles` does: the new list, the `onError` arguments in
      call order, and the `onFileSelect` argument if it is called. */
  datatype StepResult = StepResult(files: seq<FileRec>, errors: seq<UploadError>, selected: Option<seq<FileRec>>)

  const BytesPerMB: nat := 1024 * 1024

  // ---------------------------------------------------------------------------
  // Accept-pattern matching (isFileTypeAccepted)

  /** `"." + name.split(".").pop().toLowerCase()`: the lower-cased last dot-segment,
      which is the whole name when the name has no dot. */
  function Extension(name: string): string
  {
    var segments := Split(name, '.');
    "." + ToLower(segments[|segments| - 1])
  }

  /** `acceptString.split(",").map((type) => type.trim())` */
  function AcceptPatterns(accept: string): seq<string>
  {
    var parts := Split(accept, ',');
    seq(|parts|, i requires 0 <= i < |parts| => Trim(parts[i]))
  }

  // The callback given to `some`: the universal wildcards, a `family/*` wildcard,
  // an extension, and finally exact equality with the MIME type, tried in that order.
  predicate PatternMatches(pattern: string, f: FileRec)
  {
    || pattern == "*" || pattern == "*/*"
    || (EndsWith(pattern, "/*") && StartsWith(f.mimeType, ReplaceFirst(pattern, "/*", "/")))
    || (StartsWith(pattern, ".") && Extension(f.name) == pattern)
    || f.mimeType == pattern
  }

  /** `patterns.some(...)`, scanning left to right. */
  function AnyPatternMatches(patterns: seq<string>, f: FileRec): (r: bool)
    ensures r <==> exists i :: 0 <= i < |patterns| && PatternMatches(patterns[i], f)
    decreases |patterns|
  {
    |patterns| > 0 && (PatternMatches(patterns[0], f) || AnyPatternMatches(patterns[1..], f))
  }

  predicate IsFileTypeAccepted(f: FileRec, accept: string)
  {
    AnyPatternMatches(AcceptPatterns(accept), f)
  }

  // A `*` or `*/*` entry accepts every file.
  lemma WildcardAcceptsAll(accept: string, f: FileRec)
    requires "*" in AcceptPatterns(accept) || "*/*" in AcceptPatterns(accept)
    ensures IsFileTypeAccepted(f, accept)
  {
    var ps := AcceptPatterns(accept);
    var i :| 0 <= i < |ps| && (ps[i] == "*" || ps[i] == "*/*");
    assert PatternMatches(ps[i], f);
  }

  // `family + "/*"`, for a family without "/*" in it, matches exactly the MIME types
  // that start with `family + "/"` (or equal the pattern itself).
  lemma {:induction false} FamilyWildcard(family: string, f: FileRec)
    requires IndexOf(family, "/*").None?
    requires family != "*" && !StartsWith(family, ".")
    ensures PatternMatches(family + "/*", f)
        <==> StartsWith(f.mimeType, family + "/") || f.mimeType == family + "/*"
  {
    var pattern := family + "/*";
    assert EndsWith(pattern, "/*");
    assert pattern[..|family|] == family;
    assert pattern != "*/*";
    assert !StartsWith(pattern, ".") by {
      if family == [] { assert pattern[0] == '/'; } else { assert pattern[0] == family[0]; }
    }
    forall j | 0 <= j < |family| ensures !OccursAt(pattern, "/*", j) {
      if j + 1 < |family| {
        assert !OccursAt(family, "/*", j);
        assert pattern[j..j + 2] == family[j..j + 2];
      } else {
        assert pattern[j..j + 2][1] == pattern[j + 1] == '/';
      }
    }
    assert OccursAt(pattern, "/*", |family|);
    assert IndexOf(pattern, "/*") == Some(|family|);
    assert ReplaceFirst(pattern, "/*", "/") == family + "/" by {
      assert pattern[..|family|] == family;
      assert pattern[|family| + 2..] == [];
    }
  }

  /** An extension pattern matches by extension or, failing that, by exact MIME equality. */
  lemma ExtensionPattern(pattern: string, f: FileRec)
    requires StartsWith(pattern, ".") && !EndsWith(pattern, "/*")
    ensures PatternMatches(pattern, f) <==> Extension(f.name) == pattern || f.mimeType == pattern
  {
    assert pattern[0] == '.';
  }

  /** Only the file name is lower-cased, so an extension pattern holding an upper-case
      letter (".PNG") never matches by extension: it matches only a file whose MIME type
      is that very string. */
  lemma UpperCaseExtensionFallsThrough(pattern: string, f: FileRec, k: nat)
    requires StartsWith(pattern, ".") && !EndsWith(pattern, "/*")
    requires k < |pattern| && IsAsciiUpper(pattern[k])
    ensures PatternMatches(pattern, f) <==> f.mimeType == pattern
  {
    ExtensionPattern(pattern, f);
    var n := ExtensionIsLastSegment(f.name);
    var low := ToLower(f.name[n..]);
    ToLowerNoUpper(f.name[n..]);
    assert pattern[0] == '.' && k > 0;
    assert |Extension(f.name)| == |pattern| ==> Extension(f.name)[k] == low[k - 1];
  }

  /** A name without a dot has `"." + name` (lower-cased) as its extension. */
  lemma NoDotExtension(name: string)
    requires '.' !in name
    ensures Extension(name) == "." + ToLower(name)
  {
    SplitNoSep(name, '.');
  }

  /** The extension is a dot and the lower-cased text after the name's last dot (the
      whole name when it has no dot); it holds no further dot. */
  lemma ExtensionIsLastSegment(name: string) returns (k: nat)
    ensures k <= |name| && '.' !in name[k..] && (k == 0 || name[k - 1] == '.')
    ensures Extension(name) == "." + ToLower(name[k..])
    ensures var ext := Extension(name); |ext| >= 1 && ext[0] == '.' && '.' !in ext[1..]
  {
    k := SplitLast(name, '.');
    var ext := Extension(name);
    assert ext[1..] == ToLower(name[k..]);
  }

  /** An empty pattern (say from a trailing comma) matches exactly the files with an empty MIME type. */
  lemma EmptyPatternMatchesUntyped(f: FileRec)
    ensures PatternMatches("", f) <==> f.mimeType == ""
  {
  }

  /** A trailing comma in `accept` lets every file with an empty MIME type through. */
  lemma TrailingCommaAcceptsUntyped(accept: string, f: FileRec)
    requires f.mimeType == ""
    ensures IsFileTypeAccepted(f, accept + ",")
  {
    SplitTrailingSep(accept, ',');
    var parts := Split(accept + ",", ',');
    var last := |parts| - 1;
    assert parts[last] == "";
    assert AcceptPatterns(accept + ",")[last] == Trim("") == "";
    assert PatternMatches(AcceptPatterns(accept + ",")[last], f);
  }

  /** An `accept` string holding a single pattern with no surrounding whitespace. */
  lemma SinglePattern(pattern: string)
    requires ',' !in pattern && pattern != []
    requires !IsJsWhitespace(pattern[0]) && !IsJsWhitespace(pattern[|pattern| - 1])
    ensures AcceptPatterns(pattern) == [pattern]
  {
    SplitNoSep(pattern, ',');
  }

  /** The extension of `stem.ext` is the lower-cased `ext`, whatever dots `stem` holds
      ("photo.final.PNG" has extension ".png"). */
  lemma ExtensionOfDottedName(stem: string, ext: string)
    requires '.' !in ext
    ensures Extension(stem + "." + ext) == "." + ToLower(ext)
  {
    var name := stem + "." + ext;
    var k := ExtensionIsLastSegment(name);
    assert name[|stem|] == '.';
    assert name[|stem| + 1..] == ext;
  }

  // "image/*" accepts an image/png file and rejects a text/plain one.
  lemma ImageFamilyExample(family: string, accept: string, png: FileRec, txt: FileRec)
    requires family == "image" && accept == family + "/*"
    requires png.mimeType == "image/png" && txt.mimeType == "text/plain"
    ensures IsFileTypeAccepted(png, accept)
    ensures !IsFileTypeAccepted(txt, accept)
  {
    SinglePattern(accept);
    FamilyWildcard(family, png);
    FamilyWildcard(family, txt);
    assert png.mimeType[..6] == family + "/";
    assert txt.mimeType[0] == 't' && (family + "/")[0] == 'i';
  }

  /** ".png" accepts "photo.PNG" whatever its MIME type (the name is lower-cased) and
      rejects "photo.jpg" of type image/jpeg. */
  lemma PngExtensionExample(accept: string, stem: string, upper: string, jpg: string, a: FileRec, b: FileRec)
    requires accept == ".png" && stem == "photo" && upper == "PNG" && jpg == "jpg"
    requires a.name == stem + "." + upper
    requires b.name == stem + "." + jpg && b.mimeType == "image/jpeg"
    ensures IsFileTypeAccepted(a, accept)
    ensures !IsFileTypeAccepted(b, accept)
  {
    SinglePattern(accept);
    ExtensionOfDottedName(stem, upper);
    ExtensionOfDottedName(stem, jpg);
    assert ToLower(upper) == "png";
    assert ToLower(jpg) != "png";
    ExtensionPattern(accept, a);
    ExtensionPattern(accept, b);
  }

  // ---------------------------------------------------------------------------
  // Validation of one candidate (the body of the `forEach` in processFiles)

  /** `maxSizeMB ? maxSizeMB * 1024 * 1024 : Infinity`, with None for Infinity: a limit of 0 is falsy. */
  function SizeLimit(p: Props): Option<nat>
  {
    if p.maxSizeMB.Some? && p.maxSizeMB.value != 0 then Some(p.maxSizeMB.value * BytesPerMB) else None
  }

  predicate Oversized(p: Props, f: FileRec)
  {
    SizeLimit(p).Some? && f.size > SizeLimit(p).value
  }

  /** `accept &&`: an absent or empty `accept` switches the type check off. */
  predicate ChecksType(p: Props)
  {
    p.accept.Some? && p.accept.value != ""
  }

  /** The error reported for a candidate, or None when it is accepted. */
  function Verdict(p: Props, f: FileRec): (v: Option<UploadError>)
    ensures v.Some? ==> v.value.FileName() == f.name
    ensures v.Some? && v.value.SizeExceeded? ==> p.maxSizeMB == Some(v.value.maxSizeMB)
    ensures (v.Some? && v.value.SizeExceeded?)
        <==> p.maxSizeMB.Some? && p.maxSizeMB.value > 0 && f.size > p.maxSizeMB.value * 1048576
    ensures (v.Some? && v.value.TypeNotAccepted?)
        <==> !Oversized(p, f) && p.accept.Some? && p.accept.value != "" && !IsFileTypeAccepted(f, p.accept.value)
    ensures v.None? ==> !Oversized(p, f) && (ChecksType(p) ==> IsFileTypeAccepted(f, p.accept.value))
  {
    if Oversized(p, f) then Some(SizeExceeded(f.name, p.maxSizeMB.value))
    else if ChecksType(p) && !IsFileTypeAccepted(f, p.accept.value) then Some(TypeNotAccepted(f.name))
    else None
  }

  /** A file exactly at the limit passes the size check (the comparison is strict),
      and a limit of 0 or none lets every size through. */
  lemma SizeLimitBoundary(p: Props, f: FileRec)
    ensures p.maxSizeMB.Some? && f.size == p.maxSizeMB.value * BytesPerMB ==> !Oversized(p, f)
    ensures p.maxSizeMB == None || p.maxSizeMB == Some(0) ==> !Oversized(p, f)
  {
  }

  function Last<T>(s: seq<T>): T
    requires s != []
  {
    s[|s| - 1]
  }

  /** The files of `cs` that pass validation, in candidate order (`newFiles`). */
  function Batch(p: Props, cs: seq<FileRec>): seq<FileRec>
    decreases |cs|
  {
    if cs == [] then []
    else Batch(p, cs[..|cs| - 1]) + (if Verdict(p, Last(cs)).None? then [Last(cs)] else [])
  }

  /** One error per rejected file of `cs`, in candidate order (the `onError` calls). */
  function Errors(p: Props, cs: seq<FileRec>): seq<UploadError>
    decreases |cs|
  {
    if cs == [] then []
    else Errors(p, cs[..|cs| - 1]) + (if Verdict(p, Last(cs)).Some? then [Verdict(p, Last(cs)).value] else [])
  }

  /** Validation distributes over concatenation: the batch and the errors of `a + b`
      are those of `a` followed by those of `b`, so candidate order is kept. */
  lemma {:induction false} BatchAppend(p: Props, a: seq<FileRec>, b: seq<FileRec>)
    ensures Batch(p, a + b) == Batch(p, a) + Batch(p, b)
    decreases |b|
  {
    if b == [] {
      assert a + b == a;
    } else {
      var b' := b[..|b| - 1];
      BatchAppend(p, a, b');
      assert (a + b)[..|a + b| - 1] == a + b';
      var x := Last(b);
      assert Last(a + b) == x;
      var tail := if Verdict(p, x).None? then [x] else [];
      calc {
        Batch(p, a + b);
        Batch(p, a + b') + tail;
        Batch(p, a) + Batch(p, b') + tail;
        Batch(p, a) + (Batch(p, b') + tail);
      }
    }
  }

  /** The errors of `a + b` are those of `a` followed by those of `b`. */
  lemma {:induction false} ErrorsAppend(p: Props, a: seq<FileRec>, b: seq<FileRec>)
    ensures Errors(p, a + b) == Errors(p, a) + Errors(p, b)
    decreases |b|
  {
    if b == [] {
      assert a + b == a;
    } else {
      var b' := b[..|b| - 1];
      ErrorsAppend(p, a, b');
      assert (a + b)[..|a + b| - 1] == a + b';
      var x := Last(b);
      assert Last(a + b) == x;
      var tail := if Verdict(p, x).Some? then [Verdict(p, x).value] else [];
      calc {
        Errors(p, a + b);
        Errors(p, a + b') + tail;
        Errors(p, a) + Errors(p, b') + tail;
        Errors(p, a) + (Errors(p, b') + tail);
      }
    }
  }

  /** Every file in the batch is a candidate that passed validation; in particular a
      rejected candidate never reaches `onFileSelect`. */
  lemma {:induction false} BatchSound(p: Props, cs: seq<FileRec>)
    ensures forall f :: f in Batch(p, cs) ==> f in cs && Verdict(p, f).None?
    decreases |cs|
  {
    if cs != [] {
      var init := cs[..|cs| - 1];
      BatchSound(p, init);
      forall f | f in Batch(p, cs) ensures f in cs && Verdict(p, f).None? {
        if f in Batch(p, init) {
          assert f in init;
        }
      }
    }
  }

  /** Every candidate that passes validation is in the batch. */
  lemma {:induction false} BatchComplete(p: Props, cs: seq<FileRec>)
    ensures forall i :: 0 <= i < |cs| && Verdict(p, cs[i]).None? ==> cs[i] in Batch(p, cs)
    decreases |cs|
  {
    if cs != [] {
      var init := cs[..|cs| - 1];
      BatchComplete(p, init);
      forall i | 0 <= i < |cs| && Verdict(p, cs[i]).None? ensures cs[i] in Batch(p, cs) {
        if i < |cs| - 1 {
          assert cs[i] == init[i];
        }
      }
    }
  }

  /** Every error is the verdict on some candidate, and names that candidate. */
  lemma {:induction false} ErrorsSound(p: Props, cs: seq<FileRec>)
    ensures forall e :: e in Errors(p, cs) ==>
      exists i :: 0 <= i < |cs| && Verdict(p, cs[i]) == Some(e) && e.FileName() == cs[i].name
    decreases |cs|
  {
    if cs != [] {
      var init := cs[..|cs| - 1];
      ErrorsSound(p, init);
      forall e | e in Errors(p, cs)
        ensures exists i :: 0 <= i < |cs| && Verdict(p, cs[i]) == Some(e) && e.FileName() == cs[i].name
      {
        if e in Errors(p, init) {
          var i :| 0 <= i < |init| && Verdict(p, init[i]) == Some(e) && e.FileName() == init[i].name;
          assert cs[i] == init[i];
        } else {
          assert Verdict(p, cs[|cs| - 1]) == Some(e);
        }
      }
    }
  }

  /** Each candidate yields exactly one outcome: accepted into the batch or one error. */
  lemma {:induction false} BatchErrorsPartition(p: Props, cs: seq<FileRec>)
    ensures |Batch(p, cs)| + |Errors(p, cs)| == |cs|
    decreases |cs|
  {
    if cs != [] {
      BatchErrorsPartition(p, cs[..|cs| - 1]);
    }
  }

  /** The `forEach` loop of processFiles: validates the candidates in order, collecting
      the accepted ones (`newFiles`) and the `onError` arguments. */
  method ValidateCandidates(p: Props, candidates: seq<FileRec>) returns (accepted: seq<FileRec>, errors: seq<UploadError>)
    ensures accepted == Batch(p, candidates)
    ensures errors == Errors(p, candidates)
  {
    accepted, errors := [], [];
    for i := 0 to |candidates|
      invariant accepted == Batch(p, candidates[..i])
      invariant errors == Errors(p, candidates[..i])
    {
      var file := candidates[i];
      assert candidates[..i + 1][..i] == candidates[..i];
      if Oversized(p, file) {
        errors := errors + [SizeExceeded(file.name, p.maxSizeMB.value)];
      } else if ChecksType(p) && !IsFileTypeAccepted(file, p.accept.value) {
        errors := errors + [TypeNotAccepted(file.name)];
      } else {
        accepted := accepted + [file];
      }
    }
    assert candidates[..|candidates|] == candidates;
  }

  // ---------------------------------------------------------------------------
  // One processFiles call, as a function of the props, the list and the input

  /** `multiple ? filesArray : [filesArray[0]]` */
  function Considered(p: Props, candidates: seq<FileRec>): seq<FileRec>
    requires candidates != []
  {
    if p.multiple then candidates else [candidates[0]]
  }

  /** processFiles: nothing for a null or empty list; otherwise validate the considered
      candidates and, when some were accepted, replace or extend the list and report the batch. */
  function Process(p: Props, prev: seq<FileRec>, fileList: Option<seq<FileRec>>): (r: StepResult)
    ensures fileList.None? || fileList.value == [] ==> r == StepResult(prev, [], None)
    ensures r.selected.Some? ==>
      && fileList.Some? && r.selected.value != []
      && forall f :: f in r.selected.value ==> f in fileList.value && Verdict(p, f).None?
    ensures r.selected.None? ==> r.files == prev
    ensures r.selected.Some? ==> r.files == if p.multiple then prev + r.selected.value else r.selected.value
    ensures fileList.Some? && fileList.value != [] ==>
      |r.errors| + (if r.selected.Some? then |r.selected.value| else 0) == if p.multiple then |fileList.value| else 1
    ensures !p.multiple && |prev| <= 1 ==> |r.files| <= 1
  {
    if fileList.None? || fileList.value == [] then StepResult(prev, [], None)
    else
      var cs := Considered(p, fileList.value);
      var batch := Batch(p, cs);
      BatchSound(p, cs);
      BatchErrorsPartition(p, cs);
      if batch == [] then StepResult(prev, Errors(p, cs), None)
      else StepResult(if p.multiple then prev + batch else batch, Errors(p, cs), Some(batch))
  }

  /** Every valid considered candidate reaches `onFileSelect`, every rejected one gets
      its own error in candidate order, and nothing else is reported. */
  lemma ProcessOutcome(p: Props, prev: seq<FileRec>, fs: seq<FileRec>)
    requires fs != []
    ensures var r := Process(p, prev, Some(fs));
      && r.errors == Errors(p, Considered(p, fs))
      && (r.selected.Some? ==> r.selected.value == Batch(p, Considered(p, fs)))
      && forall f :: f in Considered(p, fs) && Verdict(p, f).None? ==> r.selected.Some? && f in r.selected.value
  {
    var cs := Considered(p, fs);
    BatchComplete(p, cs);
    forall f | f in cs && Verdict(p, f).None?
      ensures f in Batch(p, cs)
    {
      var i :| 0 <= i < |cs| && cs[i] == f;
    }
  }

  /** With `multiple` off only the first candidate counts: the others are dropped
      without any error. */
  lemma SingleSelectionIgnoresRest(p: Props, prev: seq<FileRec>, first: FileRec, rest: seq<FileRec>)
    requires !p.multiple
    ensures Process(p, prev, Some([first] + rest)) == Process(p, prev, Some([first]))
  {
  }

  /** With `multiple` off, selecting A and then B leaves just [B]. */
  lemma SingleSelectionReplaces(p: Props, prev: seq<FileRec>, a: FileRec, b: FileRec)
    requires !p.multiple && Verdict(p, a).None? && Verdict(p, b).None?
    ensures var s1 := Process(p, prev, Some([a]));
      var s2 := Process(p, s1.files, Some([b]));
      s1.files == [a] && s2.files == [b] && s2.selected == Some([b]) && s2.errors == []
  {
    assert Batch(p, [a]) == Batch(p, []) + [a];
    assert Batch(p, [b]) == Batch(p, []) + [b];
  }

  /** With `multiple` on, selecting [A] and then [B] accumulates both, and each
      `onFileSelect` call gets only its own batch. */
  lemma MultipleSelectionAccumulates(p: Props, prev: seq<FileRec>, a: FileRec, b: FileRec)
    requires p.multiple && Verdict(p, a).None? && Verdict(p, b).None?
    ensures var s1 := Process(p, prev, Some([a]));
      var s2 := Process(p, s1.files, Some([b]));
      s2.files == prev + [a, b] && s1.selected == Some([a]) && s2.selected == Some([b])
  {
    assert [a][..0] == [] && [b][..0] == [];
    assert Batch(p, [a]) == [a];
    assert Batch(p, [b]) == [b];
    assert Process(p, prev, Some([a])).files == prev + [a];
    assert prev + [a] + [b] == prev + [a, b];
  }

  /** Submitting an oversized file reports one size error each time and never changes the list. */
  lemma OversizedRejectedEveryTime(p: Props, prev: seq<FileRec>, f: FileRec)
    requires Oversized(p, f)
    ensures var s1 := Process(p, prev, Some([f]));
      var s2 := Process(p, s1.files, Some([f]));
      && s1 == StepResult(prev, [SizeExceeded(f.name, p.maxSizeMB.value)], None)
      && s2 == s1
  {
    assert Batch(p, [f]) == Batch(p, []);
    assert Errors(p, [f]) == Errors(p, []) + [SizeExceeded(f.name, p.maxSizeMB.value)];
  }

  /** Validating an accepted then a rejected candidate. */
  lemma PairOutcome(p: Props, good: FileRec, bad: FileRec)
    requires Verdict(p, good).None? && Verdict(p, bad).Some?
    ensures Batch(p, [good, bad]) == [good]
    ensures Errors(p, [good, bad]) == [Verdict(p, bad).value]
  {
    var cs := [good, bad];
    assert cs[..1] == [good] && [good][..0] == [];
    assert Batch(p, [good]) == [good];
    assert Errors(p, [good]) == [];
  }

  /** With `multiple` on, an accepted and a rejected candidate give a batch of the
      accepted one and a single error for the other. */
  lemma MixedBatch(p: Props, prev: seq<FileRec>, good: FileRec, bad: FileRec)
    requires p.multiple && Verdict(p, good).None? && Verdict(p, bad).Some?
    ensures Process(p, prev, Some([good, bad])) == StepResult(prev + [good], [Verdict(p, bad).value], Some([good]))
  {
    PairOutcome(p, good, bad);
    assert Considered(p, [good, bad]) == [good, bad];
  }

  /** A 6 MB file with a 5 MB limit: one error reading "File <name> exceeds the maximum
      size of 5MB", and the list is unchanged. */
  lemma SizeLimitExample(p: Props, prev: seq<FileRec>, f: FileRec)
    requires p.maxSizeMB == Some(5) && f.size == 6 * BytesPerMB
    ensures Process(p, prev, Some([f])) == StepResult(prev, [SizeExceeded(f.name, 5)], None)
    ensures ErrorMessage(SizeExceeded(f.name, 5)) == "File " + f.name + " exceeds the maximum size of 5MB"
  {
    OversizedRejectedEveryTime(p, prev, f);
  }

  // ---------------------------------------------------------------------------
  // removeFile

  /** `s.filter((_, i) => i !== index)` */
  function WithoutIndex<T>(s: seq<T>, index: int): seq<T>
    decreases |s|
  {
    if s == [] then []
    else WithoutIndex(s[..|s| - 1], index) + (if |s| - 1 != index then [Last(s)] else [])
  }

  /** The filter removes exactly the element at `index`, keeping the others in order;
      an index out of range removes nothing. */
  lemma {:induction false} WithoutIndexRemovesOne<T>(s: seq<T>, index: int)
    ensures WithoutIndex(s, index) == if 0 <= index < |s| then s[..index] + s[index + 1..] else s
    decreases |s|
  {
    if s != [] {
      var init := s[..|s| - 1];
      WithoutIndexRemovesOne(init, index);
      if 0 <= index < |s| - 1 {
        assert init[..index] + init[index + 1..] + [Last(s)] == s[..index] + s[index + 1..];
      } else if index == |s| - 1 {
        assert init == s[..index] + s[index + 1..];
      } else {
        assert init + [Last(s)] == s;
      }
    }
  }

  // ---------------------------------------------------------------------------
  // onError messages

  function DigitChar(d: nat): char
    requires d < 10
  {
    "0123456789"[d]
  }

  /** Decimal rendering of a whole number, as template literals print it. */
  function Decimal(n: nat): (r: string)
    ensures |r| >= 1
    ensures forall i :: 0 <= i < |r| ==> '0' <= r[i] <= '9'
    ensures r[0] == '0' <==> n == 0
  {
    if n < 10 then [DigitChar(n)] else Decimal(n / 10) + [DigitChar(n % 10)]
  }

  /** The number a string of decimal digits denotes. */
  function DigitsValue(s: string): nat
    requires forall i :: 0 <= i < |s| ==> '0' <= s[i] <= '9'
    decreases |s|
  {
    if s == [] then 0 else DigitsValue(s[..|s| - 1]) * 10 + (s[|s| - 1] as int - '0' as int)
  }

  /** `Decimal` prints exactly the number it is given. */
  lemma {:induction false} DecimalValue(n: nat)
    ensures DigitsValue(Decimal(n)) == n
  {
    if n >= 10 {
      DecimalValue(n / 10);
      assert Decimal(n)[..|Decimal(n)| - 1] == Decimal(n / 10);
    }
  }

  /** The text passed to `onError`; it always begins by naming the file. */
  function ErrorMessage(e: UploadError): (m: string)
    ensures StartsWith(m, "File " + e.FileName() + " ")
  {
    match e
    case SizeExceeded(name, mb) => "File " + name + " exceeds the maximum size of " + Decimal(mb) + "MB"
    case TypeNotAccepted(name) => "File " + name + " type not accepted"
  }

  // ---------------------------------------------------------------------------
  // The component's state

  class FileUpload {
    const props: Props
    /** The staged list (`files`). */
    var files: seq<FileRec>
    /** Whether a drag payload hovers over the drop target (`dragOver`). */
    var dragOver: bool

    /** In single-selection mode the list never holds more than one file. */
    predicate Valid()
      reads this
    {
      !props.multiple ==> |files| <= 1
    }

    /** Mounting: both pieces of state start empty. */
    constructor (props: Props)
      ensures this.props == props && files == [] && !dragOver
      ensures Valid()
    {
      this.props := props;
      files := [];
      dragOver := false;
    }

    /** processFiles: validates `fileList` and updates the list; returns the `onError`
        arguments and the `onFileSelect` argument. */
    method ProcessFiles(fileList: Option<seq<FileRec>>) returns (errors: seq<UploadError>, selected: Option<seq<FileRec>>)
      requires Valid()
      modifies this`files
      ensures Valid()
      ensures StepResult(files, errors, selected) == Process(props, old(files), fileList)
    {
      if fileList.None? || fileList.value == [] {
        return [], None;
      }
      var candidates := fileList.value;
      var toProcess := if props.multiple then candidates else [candidates[0]];
      var newFiles;
      newFiles, errors := ValidateCandidates(props, toProcess);
      if newFiles != [] {
        files := if props.multiple then files + newFiles else newFiles;
        selected := Some(newFiles);
      } else {
        selected := None;
      }
    }

    /** handleDrop: clears the drag flag, then processes the dropped files. */
    method HandleDrop(dropped: Option<seq<FileRec>>) returns (errors: seq<UploadError>, selected: Option<seq<FileRec>>)
      requires Valid()
      modifies this
      ensures Valid() && !dragOver
      ensures StepResult(files, errors, selected) == Process(props, old(files), dropped)
    {
      dragOver := false;
      errors, selected := ProcessFiles(dropped);
    }

    /** handleChange: processes the files chosen in the file dialog. */
    method HandleChange(chosen: Option<seq<FileRec>>) returns (errors: seq<UploadError>, selected: Option<seq<FileRec>>)
      requires Valid()
      modifies this`files
      ensures Valid()
      ensures StepResult(files, errors, selected) == Process(props, old(files), chosen)
    {
      errors, selected := ProcessFiles(chosen);
    }

    /** onDragOver: the payload hovers; nothing is processed. */
    method HandleDragOver()
      modifies this`dragOver
      ensures dragOver
    {
      dragOver := true;
    }

    /** onDragLeave: the payload left; nothing is processed. */
    method HandleDragLeave()
      modifies this`dragOver
      ensures !dragOver
    {
      dragOver := false;
    }

    /** removeFile: drops the entry at `index`, if there is one, keeping the order of the rest. */
    method RemoveFile(index: int)
      requires Valid()
      modifies this`files
      ensures Valid()
      ensures files == if 0 <= index < |old(files)| then old(files)[..index] + old(files)[index + 1..] else old(files)
    {
      WithoutIndexRemovesOne(files, index);
      files := WithoutIndex(files, index);
    }
  }
}
